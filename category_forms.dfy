/**
 * `NewCategoryForm` and `EditCategoryForm`: their constraints (the edit form
 * has no pattern on the code), `toModel`, the copy constructor and
 * `updateCategory`.
 */
module CategoryForms {
  import opened Wrappers
  import opened Constraints
  import opened JavaInt
  import opened Clock
  import opened Categories

  /** The new-category form's code rule: 4 to 10 characters matching the code pattern. */
  predicate NewFormCodeValid(t: Text) { NotBlank(t) && SizeBetween(t, 4, 10) && MatchesCodePattern(t) }

  /** The edit form's code rule: 4 to 10 characters, any characters. */
  predicate EditFormCodeValid(t: Text) { NotBlank(t) && SizeBetween(t, 4, 10) }

  /** The fields of a category form that fail, given whether its code passes. */
  function FieldViolations(name: Text, codeValid: bool, order: Int32, color: Text): (r: set<string>)
    ensures r <= {"name", "code", "order", "color"}
    ensures r == {} <==> NameValid(name) && codeValid && OrderValid(order) && ColorValid(color)
  {
    (if NameValid(name) then {} else {"name"})
    + (if codeValid then {} else {"code"})
    + (if OrderValid(order) then {} else {"order"})
    + (if ColorValid(color) then {} else {"color"})
  }

  // ---- NewCategoryForm ----

  datatype NewCategoryForm = NewCategoryForm(name: Text, code: Text, order: Int32, color: Text)
  {
    function Violations(): set<string>
    {
      FieldViolations(name, NewFormCodeValid(code), order, color)
    }

    /** The columns of the category `toModel` builds at time `now`. */
    function Model(now: Time): (c: CategoryRow)
      ensures c.id.None? && c.createdAt == now
      ensures c.name == name && c.code == code && c.color == color && c.order == order
    {
      CategoryRow(None, name, code, color, order, now)
    }

    /** `toModel`: a new, unsaved category holding the form's four fields. */
    method ToModel(now: Time) returns (c: Category)
      ensures fresh(c) && c.View() == Model(now)
    {
      c := new Category(name, code, color, order, now);
    }
  }

  /** The form a request without parameters binds to: null strings and order 0. */
  const DefaultNewForm := NewCategoryForm(None, None, 0, None)

  /** The default form fails on every field. */
  lemma DefaultNewFormInvalid()
    ensures DefaultNewForm.Violations() == {"name", "code", "order", "color"}
  {
  }

  /** The form is stricter than the entity: a category built from a valid form satisfies the entity's constraints. */
  lemma ValidNewFormModel(f: NewCategoryForm, now: Time)
    requires f.Violations() == {}
    ensures SatisfiesConstraints(f.Model(now))
  {
  }

  /** A code the entity accepts is accepted by the form exactly when it has at most 10 characters. */
  lemma EntityCodeAgainstNewForm(t: Text)
    requires CodeValid(t)
    ensures NewFormCodeValid(t) <==> |t.value| <= 10
  {
  }

  /** The boundary codes of 4 and 10 letters and the largest `int` order are accepted. */
  lemma NewFormBoundaries()
    ensures NewFormCodeValid(Some("abcd")) && NewFormCodeValid(Some("abcdefghij"))
    ensures !NewFormCodeValid(Some("abc")) && !NewFormCodeValid(Some("abcdefghijk"))
    ensures OrderValid(INT_MAX) && !OrderValid(0) && !OrderValid(-1)
  {
    CodeIsNotBlank("abcd");
    CodeIsNotBlank("abcdefghij");
  }

  // ---- EditCategoryForm ----

  datatype EditCategoryForm = EditCategoryForm(name: Text, code: Text, order: Int32, color: Text)
  {
    function Violations(): set<string>
    {
      FieldViolations(name, EditFormCodeValid(code), order, color)
    }
  }

  /** The copy constructor `EditCategoryForm(Category)`. */
  function FormOf(c: CategoryRow): (f: EditCategoryForm)
    ensures f.name == c.name && f.code == c.code && f.color == c.color && f.order == c.order
  {
    EditCategoryForm(c.name, c.code, c.order, c.color)
  }

  /** The columns `updateCategory` leaves: the four fields overwritten, without any validation. */
  function Updated(f: EditCategoryForm, c: CategoryRow): CategoryRow
  {
    c.(name := f.name, code := f.code, color := f.color, order := f.order)
  }

  /**
   * `updateCategory` copies all four fields, invalid ones included, and keeps
   * id and creation time; the copy constructor reads them back unchanged.
   */
  lemma UpdatedSpec(f: EditCategoryForm, c: CategoryRow)
    ensures FormOf(Updated(f, c)) == f
    ensures Updated(f, c).id == c.id && Updated(f, c).createdAt == c.createdAt
  {
  }

  /** A form copied from a category and applied back leaves the category unchanged. */
  lemma ReapplyOwnForm(c: CategoryRow)
    ensures Updated(FormOf(c), c) == c
  {
  }

  /** Applying a form twice, or after another form, is the same as applying it once. */
  lemma UpdatedOverwrites(f: EditCategoryForm, g: EditCategoryForm, c: CategoryRow)
    ensures Updated(f, Updated(g, c)) == Updated(f, c)
  {
  }

  /** Without a pattern, the edit form accepts codes with digits, spaces and symbols that the new form refuses. */
  lemma EditFormAcceptsAnyCharacters()
    ensures EditFormCodeValid(Some("prog123")) && !NewFormCodeValid(Some("prog123"))
    ensures EditFormCodeValid(Some("prog code")) && !NewFormCodeValid(Some("prog code"))
    ensures EditFormCodeValid(Some("prog@#$")) && !NewFormCodeValid(Some("prog@#$"))
  {
    assert !IsTrimmed("prog123"[0]) && !IsTrimmed("prog code"[0]) && !IsTrimmed("prog@#$"[0]);
  }

  /** Every code the new form accepts, the edit form accepts as well. */
  lemma NewFormCodeIsEditFormCode(t: Text)
    requires NewFormCodeValid(t)
    ensures EditFormCodeValid(t)
  {
  }

  /** So a valid edit form, applied to a valid category, can give a category that breaks the entity's code rule. */
  lemma EditFormCanBreakEntity(c: CategoryRow)
    requires SatisfiesConstraints(c)
    ensures FormOf(c).(code := Some("prog123")).Violations() == {}
    ensures !SatisfiesConstraints(Updated(FormOf(c).(code := Some("prog123")), c))
  {
    assert !IsTrimmed("prog123"[0]);
  }

  /** `updateCategory`: the four setters. */
  method UpdateCategory(f: EditCategoryForm, c: Category)
    modifies c
    ensures c.View() == Updated(f, old(c.View()))
  {
    c.name := f.name;
    c.code := f.code;
    c.color := f.color;
    c.order := f.order;
  }
}
