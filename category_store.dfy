/**
 * The category table and `CategoryRepository`'s queries, and `CategoryController`:
 * the paginated list, `save` and `update`.
 */
module CategoryStore {
  import opened Wrappers
  import opened Constraints
  import opened JavaInt
  import opened Clock
  import opened Sequences
  import opened Util
  import opened Courses
  import opened Categories
  import opened CategoryForms

  // ---- Table invariants ----

  predicate IdsDistinct(rows: seq<CategoryRow>)
  {
    forall i, j :: 0 <= i < j < |rows| ==> rows[i].id != rows[j].id
  }

  /** No two categories share a code: the controllers keep this, the table does not enforce it. */
  predicate CodesDistinct(rows: seq<CategoryRow>)
  {
    forall i, j :: 0 <= i < j < |rows| ==> rows[i].code != rows[j].code
  }

  /** Every stored category has a code, as the controllers only store validated forms. */
  predicate CodesPresent(rows: seq<CategoryRow>)
  {
    forall i :: 0 <= i < |rows| ==> rows[i].code.Some?
  }

  /** Every stored row has a generated id, below the next one the table hands out. */
  predicate IdsBelow(rows: seq<CategoryRow>, nextId: nat)
  {
    forall i :: 0 <= i < |rows| ==> rows[i].id.Some? && rows[i].id.value < nextId
  }

  /** Every row passes the entity's own validation. */
  predicate EntitiesValid(rows: seq<CategoryRow>)
  {
    forall i :: 0 <= i < |rows| ==> Categories.SatisfiesConstraints(rows[i])
  }

  lemma IdsDistinctRowsDistinct(rows: seq<CategoryRow>)
    requires IdsDistinct(rows)
    ensures Distinct(rows)
  {
  }

  // ---- Queries ----

  predicate ExistsByCode(rows: seq<CategoryRow>, code: string)
  {
    exists i :: 0 <= i < |rows| && rows[i].code == Some(code)
  }

  function HasId(id: nat): CategoryRow -> bool
  {
    (c: CategoryRow) => c.id == Some(id)
  }

  /** `findById`: the row with that id, if any. */
  function FindById(rows: seq<CategoryRow>, id: nat): (r: Option<CategoryRow>)
    ensures r.Some? ==> r.value in rows && r.value.id == Some(id)
    ensures r.None? <==> forall i :: 0 <= i < |rows| ==> rows[i].id != Some(id)
  {
    FindFirst(rows, HasId(id))
  }

  /** With distinct ids, the row found is the one stored under that id. */
  lemma FindByIdAt(rows: seq<CategoryRow>, i: nat)
    requires IdsDistinct(rows) && i < |rows| && rows[i].id.Some?
    ensures FindById(rows, rows[i].id.value) == Some(rows[i])
  {
    FindFirstAt(rows, HasId(rows[i].id.value), i);
  }

  /** Ascending `order`. */
  function OrderKey(c: CategoryRow): int { c.order }

  /** `findAllOrderedByOrder`, and the `Integer.compare` sort of `findAll()` in `CourseController.create`. */
  function FindAllOrderedByOrder(rows: seq<CategoryRow>): seq<CategoryRow>
  {
    SortBy(rows, OrderKey)
  }

  /**
   * The ordered list holds every category exactly as often as the table, by
   * ascending order, and categories with equal order keep their table order.
   */
  lemma FindAllOrderedByOrderSpec(rows: seq<CategoryRow>, k: int)
    ensures multiset(FindAllOrderedByOrder(rows)) == multiset(rows)
    ensures SortedBy(FindAllOrderedByOrder(rows), OrderKey)
    ensures Filter(FindAllOrderedByOrder(rows), KeyIs(OrderKey, k)) == Filter(rows, KeyIs(OrderKey, k))
    ensures rows == [] ==> FindAllOrderedByOrder(rows) == []
  {
    SortByPermutes(rows, OrderKey);
    SortBySorted(rows, OrderKey);
    SortByStable(rows, OrderKey, k);
  }

  /** The SQL join `c.name = co.category` with `co.status = 'ACTIVE'`; a null name matches nothing. */
  function HasActiveCourse(courses: seq<CourseDTO>): CategoryRow -> bool
  {
    (c: CategoryRow) => c.name.Some? && exists co :: co in courses && IsActiveCourse(co) && co.category == c.name
  }

  /**
   * `findTop9CategoriesWithActiveCourses`: the distinct categories joined to at
   * least one active course, ordered by `order`. The query has no limit clause.
   */
  function FindCategoriesWithActiveCourses(rows: seq<CategoryRow>, courses: seq<CourseDTO>): seq<CategoryRow>
  {
    SortBy(Filter(rows, HasActiveCourse(courses)), OrderKey)
  }

  /**
   * A category is listed exactly when some active course's category equals its
   * name; the list is ordered by `order`, lists each category once, and has as many
   * entries as there are matching categories, however many that is.
   */
  lemma FindCategoriesWithActiveCoursesSpec(rows: seq<CategoryRow>, courses: seq<CourseDTO>)
    ensures forall c :: c in FindCategoriesWithActiveCourses(rows, courses) <==>
              c in rows && c.name.Some? && exists co :: co in courses && IsActiveCourse(co) && co.category == c.name
    ensures SortedBy(FindCategoriesWithActiveCourses(rows, courses), OrderKey)
    ensures IdsDistinct(rows) ==> Distinct(FindCategoriesWithActiveCourses(rows, courses))
    ensures |FindCategoriesWithActiveCourses(rows, courses)| == |Filter(rows, HasActiveCourse(courses))|
    ensures (forall c :: c in rows ==> HasActiveCourse(courses)(c)) ==>
              multiset(FindCategoriesWithActiveCourses(rows, courses)) == multiset(rows)
  {
    var p := HasActiveCourse(courses);
    var f := Filter(rows, p);
    SortByMembers(f, OrderKey);
    SortBySorted(f, OrderKey);
    SortByPermutes(f, OrderKey);
    if IdsDistinct(rows) {
      FilterDistinct(rows, p);
      SortByDistinct(f, OrderKey);
    }
    if forall c :: c in rows ==> p(c) {
      FilterAll(rows, p);
    }
  }

  // ---- Pagination ----

  /** The elements of `s` from `offset` on, at most `size` of them. */
  function Slice<T>(s: seq<T>, offset: nat, size: nat): (r: seq<T>)
    ensures offset >= |s| ==> r == []
    ensures offset < |s| ==> r == s[offset..if offset + size <= |s| then offset + size else |s|]
    ensures |r| == if offset >= |s| then 0 else if offset + size <= |s| then size else |s| - offset
  {
    if offset >= |s| then [] else Limit(s[offset..], size)
  }

  /** The `Page` that `findAll(PageRequest.of(page, size, Sort.by("order").ascending()))` returns. */
  datatype Page = Page(content: seq<CategoryRow>, number: nat, size: nat, totalElements: nat)

  /**
   * `PageRequest.of` refuses a negative page and a size below one, and
   * `findAll` refuses an offset `(long) page * size` that does not fit the
   * `int` first-result position of the JPA query; otherwise the page of the
   * ordered table.
   */
  function FindPage(rows: seq<CategoryRow>, page: Int32, size: Int32): (r: Result<Page, string>)
    ensures r.Success? <==> page >= 0 && size >= 1 && page * size <= INT_MAX
    ensures r.Success? ==> r.value.totalElements == |rows| && r.value.number == page && r.value.size == size
    ensures r.Success? ==> r.value.content == Slice(FindAllOrderedByOrder(rows), page * size, size)
  {
    if page < 0 then Failure("Page index must not be less than zero")
    else if size < 1 then Failure("Page size must not be less than one")
    else if page * size > INT_MAX then Failure("Page offset exceeds Integer.MAX_VALUE")
    else Success(Page(Slice(FindAllOrderedByOrder(rows), page * size, size), page, size, |rows|))
  }

  /** `Page.getTotalPages`: the number of pages of `size` needed for `total` items, at most `INT_MAX`. */
  function TotalPages(total: nat, size: nat): (r: nat)
    requires size >= 1
    ensures r <= INT_MAX
    ensures total <= INT_MAX ==> (r - 1) * size < total <= r * size || (total == 0 && r == 0)
  {
    var n := (total + size - 1) / size;
    if n > INT_MAX then INT_MAX else n
  }

  /** The page links: two pages either side of the current one. */
  function StartPage(page: nat): (r: nat)
  {
    if page >= 2 then page - 2 else 0
  }

  function EndPage(page: nat, totalPages: nat): int
  {
    if totalPages - 1 <= page + 2 then totalPages - 1 else page + 2
  }

  /** The 1-based position of the page's first item, computed without overflow. */
  function StartItem(page: nat, size: nat): nat
  {
    page * size + 1
  }

  /** The 1-based position of the page's last item, computed without overflow. */
  function EndItem(page: nat, size: nat, total: nat): nat
  {
    if (page + 1) * size <= total then (page + 1) * size else total
  }

  /** At most five page links, starting at page 0 or later. */
  lemma PageLinksSpec(page: nat, totalPages: nat)
    ensures StartPage(page) >= 0
    ensures EndPage(page, totalPages) - StartPage(page) <= 4
    ensures EndPage(page, totalPages) <= totalPages - 1
    ensures page < totalPages ==> StartPage(page) <= page <= EndPage(page, totalPages)
  {
  }

  /** An existing page starts before the last item. */
  lemma PageStartsInRange(page: nat, size: nat, total: nat)
    requires size >= 1 && total <= INT_MAX && page < TotalPages(total, size)
    ensures page * size < total
  {
    var n := TotalPages(total, size);
    assert (n - 1) * size < total;
    MulMonotone(page, n - 1, size);
  }

  lemma MulMonotone(a: nat, b: nat, c: nat)
    requires a <= b
    ensures a * c <= b * c
  {
  }

  /**
   * The item positions: the last is never beyond the total, and on an existing
   * page they span exactly the items shown.
   */
  lemma ItemRangeSpec(rows: seq<CategoryRow>, page: Int32, size: Int32)
    requires page >= 0 && size >= 1
    ensures EndItem(page, size, |rows|) <= |rows| && StartItem(page, size) >= 1
    ensures page < TotalPages(|rows|, size) && |rows| <= INT_MAX ==> FindPage(rows, page, size).Success?
    ensures page < TotalPages(|rows|, size) && |rows| <= INT_MAX ==>
              StartItem(page, size) <= EndItem(page, size, |rows|)
              && EndItem(page, size, |rows|) - StartItem(page, size) + 1 == |FindPage(rows, page, size).value.content|
    ensures page * size <= INT_MAX && page * size >= |rows| ==> FindPage(rows, page, size).value.content == []
  {
    var total := |rows|;
    SortByPermutes(rows, OrderKey);
    assert |FindAllOrderedByOrder(rows)| == total by {
      assert |multiset(FindAllOrderedByOrder(rows))| == |multiset(rows)|;
    }
    if page < TotalPages(total, size) && total <= INT_MAX {
      PageStartsInRange(page, size, total);
      assert (page + 1) * size == page * size + size;
    }
  }

  /** What the category list shows. */
  datatype ListView = ListView(
    items: seq<CategoryRow>,
    currentPage: nat,
    totalPages: nat,
    startPage: nat,
    endPage: int,
    itemsPerPage: nat,
    totalItems: nat,
    startItem: nat,
    endItem: nat)

  /** `list(page, size)` on the table `rows`, with the item and page positions computed without overflow. */
  function List(rows: seq<CategoryRow>, page: Int32, size: Int32): (r: Result<ListView, string>)
    ensures r.Success? <==> page >= 0 && size >= 1 && page * size <= INT_MAX
    ensures r.Success? ==> r.value.items == Slice(FindAllOrderedByOrder(rows), page * size, size)
    ensures r.Success? ==> r.value.totalItems == |rows| && r.value.endItem <= |rows|
    ensures r.Success? ==> r.value.endPage - r.value.startPage <= 4
  {
    match FindPage(rows, page, size)
    case Failure(e) => Failure(e)
    case Success(p) =>
      var totalPages := TotalPages(p.totalElements, size);
      Success(ListView(p.content, page, totalPages, StartPage(page), EndPage(page, totalPages), size,
                       p.totalElements, StartItem(page, size), EndItem(page, size, p.totalElements)))
  }

  // ---- The positions as the source computes them, in 32-bit arithmetic ----

  /** `page * size + 1` in `int` arithmetic. */
  function StartItemAsWritten(page: Int32, size: Int32): Int32
  {
    Wrap(Wrap(page * size) + 1)
  }

  /** `Math.min((long) (page + 1) * size, total)`: the cast comes after `page + 1` has been computed as an `int`. */
  function EndItemAsWritten(page: Int32, size: Int32, total: nat): int
  {
    var product := Wrap(page + 1) * size;
    if product <= total then product else total
  }

  /** `Math.min(totalPages - 1, currentPage + 2)` with `currentPage + 2` computed as an `int`. */
  function EndPageAsWritten(page: Int32, totalPages: nat): int
  {
    var next := Wrap(page + 2);
    if totalPages - 1 <= next then totalPages - 1 else next
  }

  /** Without overflow the source's positions are the intended ones. */
  lemma AsWrittenAgreesWithoutOverflow(page: Int32, size: Int32, totalPages: nat, total: nat)
    requires page >= 0 && size >= 1
    ensures page * size + 1 <= INT_MAX ==> StartItemAsWritten(page, size) == StartItem(page, size)
    ensures page + 1 <= INT_MAX ==> EndItemAsWritten(page, size, total) == EndItem(page, size, total)
    ensures page + 2 <= INT_MAX ==> EndPageAsWritten(page, totalPages) == EndPage(page, totalPages)
  {
  }

  /**
   * Page 1 of size `INT_MAX` is served, and reports its first item at
   * `INT_MIN` instead of `INT_MAX + 1`.
   */
  lemma StartItemOverflows(rows: seq<CategoryRow>)
    ensures List(rows, 1, INT_MAX).Success?
    ensures StartItemAsWritten(1, INT_MAX) == INT_MIN
    ensures List(rows, 1, INT_MAX).value.startItem == StartItem(1, INT_MAX) == INT_MAX + 1
  {
  }

  /**
   * Page `INT_MAX` of size 1 is served, and reports its last item at `INT_MIN`
   * instead of at the total.
   */
  lemma EndItemOverflows(rows: seq<CategoryRow>)
    ensures List(rows, INT_MAX, 1).Success?
    ensures EndItemAsWritten(INT_MAX, 1, |rows|) == INT_MIN
    ensures List(rows, INT_MAX, 1).value.endItem == EndItem(INT_MAX, 1, |rows|)
    ensures |rows| <= INT_MAX ==> EndItem(INT_MAX, 1, |rows|) == |rows|
  {
  }

  /**
   * Page `INT_MAX` of size 1 is served, and its last page link becomes
   * `INT_MIN + 1`, far below the first one, instead of the last page.
   */
  lemma EndPageOverflows(rows: seq<CategoryRow>)
    ensures List(rows, INT_MAX, 1).Success?
    ensures var totalPages := TotalPages(|rows|, 1);
      && EndPageAsWritten(INT_MAX, totalPages) == INT_MIN + 1 < StartPage(INT_MAX)
      && List(rows, INT_MAX, 1).value.endPage == EndPage(INT_MAX, totalPages) == totalPages - 1
  {
  }

  // ---- The repository ----

  /** The category table behind `CategoryRepository`. */
  class CategoryRepository {
    var rows: seq<CategoryRow>
    var nextId: nat

    /** Every stored row has a generated id, below the next one to hand out. */
    ghost predicate Valid()
      reads this
    {
      IdsDistinct(rows) && IdsBelow(rows, nextId)
    }

    constructor ()
      ensures rows == [] && nextId == 0 && Valid()
    {
      rows := [];
      nextId := 0;
    }

    /** `save` of a new entity: the table generates its id. */
    method Insert(c: Category)
      requires Valid() && c.id.None?
      modifies this, c
      ensures Valid()
      ensures c.View() == old(c.View()).(id := Some(old(nextId)))
      ensures rows == old(rows) + [c.View()] && nextId == old(nextId) + 1
    {
      c.id := Some(nextId);
      rows := rows + [c.View()];
      nextId := nextId + 1;
    }

    /** `save` of a stored entity: its row is overwritten. */
    method Update(c: Category)
      requires Valid() && c.id.Some? && FindById(rows, c.id.value).Some?
      modifies this
      ensures Valid() && nextId == old(nextId)
      ensures rows == Replace(old(rows), c.View())
    {
      rows := Replace(rows, c.View());
    }
  }

  /** Every row with the id of `c` replaced by `c`. */
  function Replace(rows: seq<CategoryRow>, c: CategoryRow): (r: seq<CategoryRow>)
    ensures |r| == |rows|
    ensures forall i :: 0 <= i < |rows| ==> r[i] == if rows[i].id == c.id then c else rows[i]
  {
    seq(|rows|, i requires 0 <= i < |rows| => if rows[i].id == c.id then c else rows[i])
  }

  // ---- The controller's decisions ----

  const NewFormView := "admin/category/newForm"
  const EditFormView := "admin/category/editForm"
  const ListTarget := "/admin/categories"
  const CodeTaken := Rejection("code", "error.code", "Código já existe")

  /** A category as the table stores it on insert. */
  function Stored(c: CategoryRow, id: nat): CategoryRow
  {
    c.(id := Some(id))
  }

  /**
   * `save`: the response and the new table. The entity's validation on persist
   * always passes, since a valid new form builds a valid category (`ValidNewFormModel`).
   */
  function SaveOutcome(rows: seq<CategoryRow>, nextId: nat, form: NewCategoryForm, now: Time): (Response, seq<CategoryRow>)
  {
    if form.Violations() != {} then (FormRedisplay(NewFormView, form.Violations(), []), rows)
    else if ExistsByCode(rows, form.code.value) then (FormRedisplay(NewFormView, {}, []), rows)
    else (Redirect(ListTarget), rows + [Stored(form.Model(now), nextId)])
  }

  /**
   * An invalid form or a code already stored redisplays the form and stores
   * nothing; otherwise exactly the form's category is added.
   */
  lemma SaveOutcomeSpec(rows: seq<CategoryRow>, nextId: nat, form: NewCategoryForm, now: Time)
    ensures var (r, after) := SaveOutcome(rows, nextId, form, now);
      && (form.Violations() != {} ==> r.FormRedisplay? && r.invalidFields == form.Violations() && after == rows)
      && (form.Violations() == {} && ExistsByCode(rows, form.code.value) ==> r.FormRedisplay? && after == rows)
      && (r.Redirect? <==> form.Violations() == {} && !ExistsByCode(rows, form.code.value))
      && (r.Redirect? ==> after == rows + [Stored(form.Model(now), nextId)]
                          && after[|rows|].name == form.name && after[|rows|].code == form.code
                          && after[|rows|].color == form.color && after[|rows|].order == form.order)
  {
  }

  /**
   * `save` keeps codes present and distinct and every row valid, and keeps ids
   * distinct and below the next one when `nextId` is fresh.
   */
  lemma SavePreservesInvariants(rows: seq<CategoryRow>, nextId: nat, form: NewCategoryForm, now: Time)
    requires CodesDistinct(rows) && CodesPresent(rows)
    ensures CodesDistinct(SaveOutcome(rows, nextId, form, now).1)
    ensures CodesPresent(SaveOutcome(rows, nextId, form, now).1)
    ensures EntitiesValid(rows) ==> EntitiesValid(SaveOutcome(rows, nextId, form, now).1)
    ensures IdsDistinct(rows) && IdsBelow(rows, nextId) ==>
              var after := SaveOutcome(rows, nextId, form, now).1;
              IdsDistinct(after) && IdsBelow(after, if after == rows then nextId else nextId + 1)
  {
    var after := SaveOutcome(rows, nextId, form, now).1;
    if after != rows {
      ValidNewFormModel(form, now);
      forall i, j | 0 <= i < j < |after|
        ensures after[i].code != after[j].code
      {
        if j == |rows| {
          assert after[i] == rows[i];
        }
      }
    }
  }

  /**
   * `update`: the response and the new table. The form's code is compared with
   * the stored one first. The changed entity is validated when the transaction
   * flushes it; a violation rolls the transaction back and the
   * `ConstraintViolationException` handler answers.
   */
  function UpdateOutcome(rows: seq<CategoryRow>, id: nat, form: EditCategoryForm): (Response, seq<CategoryRow>)
    requires CodesPresent(rows)
  {
    if form.Violations() != {} then (FormRedisplay(EditFormView, form.Violations(), []), rows)
    else
      match FindById(rows, id)
      case None => (Redirect(ListTarget), rows)
      case Some(c) =>
        if c.code != form.code && ExistsByCode(rows, form.code.value) then (FormRedisplay(EditFormView, {}, [CodeTaken]), rows)
        else if Categories.Violations(Updated(form, c)) != {} then
          (ConstraintViolation(Categories.Violations(Updated(form, c))), rows)
        else (Redirect(ListTarget), Replace(rows, Updated(form, c)))
  }

  /**
   * Validation errors and unknown ids change nothing; a changed code that is
   * already stored is rejected with "Código já existe" on `code`; an updated
   * entity that fails its own validation is answered by the exception handler
   * and changes nothing.
   */
  lemma UpdateRefusals(rows: seq<CategoryRow>, id: nat, form: EditCategoryForm)
    requires CodesPresent(rows)
    ensures form.Violations() != {} ==>
              UpdateOutcome(rows, id, form) == (FormRedisplay(EditFormView, form.Violations(), []), rows)
    ensures form.Violations() == {} && FindById(rows, id).None? ==> UpdateOutcome(rows, id, form) == (Redirect(ListTarget), rows)
    ensures form.Violations() == {} && FindById(rows, id).Some? && FindById(rows, id).value.code != form.code
            && ExistsByCode(rows, form.code.value) ==>
              UpdateOutcome(rows, id, form) == (FormRedisplay(EditFormView, {}, [CodeTaken]), rows)
    ensures form.Violations() == {} && FindById(rows, id).Some?
            && !(FindById(rows, id).value.code != form.code && ExistsByCode(rows, form.code.value))
            && !Categories.SatisfiesConstraints(Updated(form, FindById(rows, id).value)) ==>
              UpdateOutcome(rows, id, form).1 == rows
              && UpdateOutcome(rows, id, form).0 == ConstraintViolation(Categories.Violations(Updated(form, FindById(rows, id).value)))
  {
  }

  /**
   * Keeping the code never consults the other rows: only the entity's own
   * validation decides. When it passes, only the row with that id changes,
   * taking the form's four fields; a stored row that was valid always passes.
   */
  lemma UpdateKeepingCode(rows: seq<CategoryRow>, i: nat, form: EditCategoryForm)
    requires CodesPresent(rows) && IdsDistinct(rows) && i < |rows| && rows[i].id.Some?
    requires form.Violations() == {} && form.code == rows[i].code
    ensures Categories.SatisfiesConstraints(rows[i]) ==> Categories.SatisfiesConstraints(Updated(form, rows[i]))
    ensures !Categories.SatisfiesConstraints(Updated(form, rows[i])) ==>
              UpdateOutcome(rows, rows[i].id.value, form) == (ConstraintViolation(Categories.Violations(Updated(form, rows[i]))), rows)
    ensures Categories.SatisfiesConstraints(Updated(form, rows[i])) ==>
      var (r, after) := UpdateOutcome(rows, rows[i].id.value, form);
      && r == Redirect(ListTarget) && |after| == |rows|
      && after[i] == Updated(form, rows[i])
      && forall j :: 0 <= j < |rows| && j != i ==> after[j] == rows[j]
  {
    FindByIdAt(rows, i);
  }

  /** A successful update changes only the row with that id, which takes the form's four fields. */
  lemma UpdateSuccess(rows: seq<CategoryRow>, i: nat, form: EditCategoryForm)
    requires CodesPresent(rows) && IdsDistinct(rows) && i < |rows| && rows[i].id.Some?
    requires UpdateOutcome(rows, rows[i].id.value, form).0.Redirect? && form.Violations() == {}
    ensures var after := UpdateOutcome(rows, rows[i].id.value, form).1;
      && |after| == |rows| && after[i] == Updated(form, rows[i]) && Categories.SatisfiesConstraints(after[i])
      && forall j :: 0 <= j < |rows| && j != i ==> after[j] == rows[j]
  {
    FindByIdAt(rows, i);
  }

  /**
   * The edit form checks neither the code's pattern nor its upper length:
   * renaming a valid category's code to "prog123" passes the form and the
   * uniqueness check, and the entity's validation then refuses it on `code`,
   * leaving the table unchanged.
   */
  lemma UpdateToUnpatternedCodeRefused(rows: seq<CategoryRow>, i: nat)
    requires CodesPresent(rows) && IdsDistinct(rows) && i < |rows| && rows[i].id.Some?
    requires Categories.SatisfiesConstraints(rows[i]) && !ExistsByCode(rows, "prog123")
    ensures var form := FormOf(rows[i]).(code := Some("prog123"));
      && form.Violations() == {}
      && UpdateOutcome(rows, rows[i].id.value, form) == (ConstraintViolation({"code"}), rows)
  {
    var form := FormOf(rows[i]).(code := Some("prog123"));
    EditFormCanBreakEntity(rows[i]);
    FindByIdAt(rows, i);
    var u := Updated(form, rows[i]);
    assert Categories.Violations(u) == {"code"} by {
      assert Categories.NameValid(u.name) && Categories.ColorValid(u.color) && Categories.OrderValid(u.order);
    }
  }

  /** `update` keeps ids distinct, codes present and distinct, and every row valid. */
  lemma UpdatePreservesInvariants(rows: seq<CategoryRow>, id: nat, form: EditCategoryForm)
    requires CodesPresent(rows) && CodesDistinct(rows) && IdsDistinct(rows)
    ensures IdsDistinct(UpdateOutcome(rows, id, form).1)
    ensures CodesPresent(UpdateOutcome(rows, id, form).1)
    ensures CodesDistinct(UpdateOutcome(rows, id, form).1)
    ensures EntitiesValid(rows) ==> EntitiesValid(UpdateOutcome(rows, id, form).1)
  {
    var after := UpdateOutcome(rows, id, form).1;
    if form.Violations() == {} && FindById(rows, id).Some? {
      var c := FindById(rows, id).value;
      if !(c.code != form.code && ExistsByCode(rows, form.code.value)) {
        var u := Updated(form, c);
        assert u.id == Some(id);
        forall a, b | 0 <= a < b < |after|
          ensures after[a].id != after[b].id && after[a].code != after[b].code
        {
          if rows[a].id == Some(id) {
            assert rows[b].id != Some(id);
            if c.code == form.code {
              assert c == rows[a] by { FindByIdAt(rows, a); }
            }
          } else if rows[b].id == Some(id) {
            if c.code == form.code {
              assert c == rows[b] by { FindByIdAt(rows, b); }
            }
          }
        }
      }
    }
  }

  /** `CategoryController`. */
  class CategoryController {
    const categories: CategoryRepository

    constructor (categories: CategoryRepository)
      ensures this.categories == categories
    {
      this.categories := categories;
    }

    /** `list(page, size)`: the requested page of the categories by ascending order, or the paging error. */
    function ListPage(page: Int32, size: Int32): (r: Result<ListView, string>)
      reads categories
      ensures r.Success? <==> page >= 0 && size >= 1 && page * size <= INT_MAX
      ensures r.Success? ==> r.value.items == Slice(FindAllOrderedByOrder(categories.rows), page * size, size)
      ensures r.Success? ==> r.value.totalItems == |categories.rows| && r.value.endItem <= |categories.rows|
    {
      List(categories.rows, page, size)
    }

    /** `save`: validation, then the duplicate check, then the insert. */
    method Save(form: NewCategoryForm, now: Time) returns (r: Response)
      requires categories.Valid()
      modifies categories
      ensures categories.Valid()
      ensures (r, categories.rows) == SaveOutcome(old(categories.rows), old(categories.nextId), form, now)
    {
      if form.Violations() != {} {
        return FormRedisplay(NewFormView, form.Violations(), []);
      }
      if ExistsByCode(categories.rows, form.code.value) {
        return FormRedisplay(NewFormView, {}, []);
      }
      var c := form.ToModel(now);
      categories.Insert(c);
      return Redirect(ListTarget);
    }

    /** `update`: validation, lookup, the uniqueness check for a changed code, then `updateCategory` and `save`. */
    method Update(id: nat, form: EditCategoryForm) returns (r: Response)
      requires categories.Valid() && CodesPresent(categories.rows)
      modifies categories
      ensures categories.Valid()
      ensures (r, categories.rows) == UpdateOutcome(old(categories.rows), id, form)
    {
      if form.Violations() != {} {
        return FormRedisplay(EditFormView, form.Violations(), []);
      }
      var found := FindById(categories.rows, id);
      if found.None? {
        return Redirect(ListTarget);
      }
      var c := new Category.Load(found.value);
      if c.code != form.code && ExistsByCode(categories.rows, form.code.value) {
        return FormRedisplay(EditFormView, {}, [CodeTaken]);
      }
      UpdateCategory(form, c);
      var violations := Categories.Violations(c.View());
      if violations != {} {
        return ConstraintViolation(violations);
      }
      categories.Update(c);
      return Redirect(ListTarget);
    }
  }
}
