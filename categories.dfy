/** The category entity: its columns, their constraints and its constructor. */
module Categories {
  import opened Wrappers
  import opened Constraints
  import opened JavaInt
  import opened Clock

  /** A snapshot of a category's columns. */
  datatype CategoryRow = CategoryRow(
    id: Option<nat>,
    name: Text,
    code: Text,
    color: Text,
    order: Int32,
    createdAt: Time)

  predicate NameValid(t: Text) { NotBlank(t) }

  /** The entity's code rule: 4 to 15 characters, against 4 to 10 on the category forms. */
  predicate CodeValid(t: Text) { NotBlank(t) && SizeBetween(t, 4, 15) && MatchesCodePattern(t) }

  predicate ColorValid(t: Text) { NotBlank(t) }

  /** `@NotNull` holds of every Java `int`; `@Min(1)` is the real bound. */
  predicate OrderValid(order: Int32) { order >= 1 }

  predicate SatisfiesConstraints(c: CategoryRow)
  {
    NameValid(c.name) && CodeValid(c.code) && ColorValid(c.color) && OrderValid(c.order)
  }

  /**
   * The properties Bean Validation reports when it checks the entity on
   * persist or update: none exactly when the entity satisfies its constraints.
   */
  function Violations(c: CategoryRow): (r: set<string>)
    ensures r == {} <==> SatisfiesConstraints(c)
    ensures r <= {"name", "code", "color", "order"}
    ensures "code" in r <==> !CodeValid(c.code)
  {
    (if NameValid(c.name) then {} else {"name"})
    + (if CodeValid(c.code) then {} else {"code"})
    + (if ColorValid(c.color) then {} else {"color"})
    + (if OrderValid(c.order) then {} else {"order"})
  }

  /** An entity code is valid exactly when it is a code of 4 to 15 characters. */
  lemma CodeValidIff(t: Text)
    ensures CodeValid(t) <==> t.Some? && 4 <= |t.value| <= 15 && WellFormedCode(t.value)
  {
    if t.Some? {
      IsCodeCorrect(t.value);
    }
  }

  /** The codes the entity is expected to accept. */
  lemma AcceptedExampleCodes()
    ensures CodeValid(Some("prog")) && CodeValid(Some("front-end")) && CodeValid(Some("data-science"))
    ensures CodeValid(Some("mobile")) && CodeValid(Some("devops"))
  {
    CodeIsNotBlank("prog");
    CodeIsNotBlank("front-end");
    CodeIsNotBlank("data-science");
    CodeIsNotBlank("mobile");
    CodeIsNotBlank("devops");
  }

  /** An order of 0 or below is refused, whatever the other columns hold. */
  lemma NonPositiveOrderRefused(c: CategoryRow)
    requires c.order <= 0
    ensures !SatisfiesConstraints(c)
  {
  }

  /** The `Category` entity. `createdAt` is set when the object is created. */
  class Category {
    var id: Option<nat>
    var name: Text
    var code: Text
    var color: Text
    var order: Int32
    var createdAt: Time

    function View(): CategoryRow
      reads this
    {
      CategoryRow(id, name, code, color, order, createdAt)
    }

    /** The four-argument constructor: stores its arguments as given, not yet saved, created at `now`. */
    constructor (name: Text, code: Text, color: Text, order: Int32, now: Time)
      ensures View() == CategoryRow(None, name, code, color, order, now)
    {
      this.id := None;
      this.name := name;
      this.code := code;
      this.color := color;
      this.order := order;
      this.createdAt := now;
    }

    /** The entity the repository hands out for a stored row. */
    constructor Load(c: CategoryRow)
      ensures View() == c
    {
      id := c.id;
      name := c.name;
      code := c.code;
      color := c.color;
      order := c.order;
      createdAt := c.createdAt;
    }
  }
}
