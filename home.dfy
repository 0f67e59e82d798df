/** The landing page of `LoginController.home`: categories with up to four of their active courses. */
module Home {
  import opened Wrappers
  import opened Constraints
  import opened Sequences
  import opened Courses
  import opened Categories
  import CategoryStore
  import CourseStore

  /** `CategoryWithCourses`. */
  datatype CategoryWithCourses = CategoryWithCourses(category: CategoryRow, courses: seq<CourseDTO>)

  /** The two model attributes of the page. */
  datatype Feed = Feed(categoriesWithCourses: seq<CategoryWithCourses>, totalCourses: nat)

  /** The most courses shown under one category. */
  const CoursesPerCategory: nat := 4

  /** `course.getCategory().equals(category.getName())`: exact, case-sensitive equality. */
  function InCategory(name: Text): CourseDTO -> bool
  {
    (c: CourseDTO) => c.category.Some? && c.category == name
  }

  /** A null list is treated as an empty one. */
  function OrEmpty<T>(s: Option<seq<T>>): (r: seq<T>)
    ensures s.None? ==> r == []
    ensures s.Some? ==> r == s.value
  {
    if s.None? then [] else s.value
  }

  /** One entry: the first four active courses of the category, in list order. */
  function Entry(category: CategoryRow, courses: seq<CourseDTO>): CategoryWithCourses
  {
    CategoryWithCourses(category, Limit(Filter(courses, InCategory(category.name)), CoursesPerCategory))
  }

  /**
   * `home`, given what the two queries returned. Every course must have a
   * category, since `getCategory().equals` is called on each course looked at.
   */
  function HomeFeed(categories: Option<seq<CategoryRow>>, courses: Option<seq<CourseDTO>>): Feed
    requires forall c :: c in OrEmpty(courses) ==> c.category.Some?
  {
    var cats := OrEmpty(categories);
    var all := OrEmpty(courses);
    Feed(seq(|cats|, i requires 0 <= i < |cats| => Entry(cats[i], all)), |all|)
  }

  /** A null list of categories or of courses gives the same page as an empty one. */
  lemma NullIsEmpty(categories: Option<seq<CategoryRow>>, courses: Option<seq<CourseDTO>>)
    requires forall c :: c in OrEmpty(courses) ==> c.category.Some?
    ensures categories.None? ==> HomeFeed(categories, courses) == HomeFeed(Some([]), courses)
                                 && HomeFeed(categories, courses).categoriesWithCourses == []
    ensures courses.None? ==> HomeFeed(categories, courses) == HomeFeed(categories, Some([]))
                              && HomeFeed(categories, courses).totalCourses == 0
  {
  }

  /**
   * One entry per category, in order. An entry holds at most four courses,
   * each of them a course of that category; they are the first matches in list
   * order, and all of them when there are fewer than four. A category matching
   * no course gets an empty list. The total counts every course, not only
   * those shown.
   */
  lemma HomeFeedSpec(categories: Option<seq<CategoryRow>>, courses: Option<seq<CourseDTO>>)
    requires forall c :: c in OrEmpty(courses) ==> c.category.Some?
    ensures var feed := HomeFeed(categories, courses);
      var cats := OrEmpty(categories);
      var all := OrEmpty(courses);
      && |feed.categoriesWithCourses| == |cats|
      && feed.totalCourses == |all|
      && forall i :: 0 <= i < |cats| ==>
           var e := feed.categoriesWithCourses[i];
           var matches := Filter(all, InCategory(cats[i].name));
           && e.category == cats[i]
           && |e.courses| <= CoursesPerCategory
           && (forall c :: c in e.courses ==> c in all && c.category == cats[i].name)
           && e.courses == matches[..|e.courses|]
           && (|matches| <= CoursesPerCategory ==> e.courses == matches)
           && (|matches| >= CoursesPerCategory ==> |e.courses| == CoursesPerCategory)
           && ((forall c :: c in all ==> c.category != cats[i].name) ==> e.courses == [])
  {
    var cats := OrEmpty(categories);
    var all := OrEmpty(courses);
    forall i | 0 <= i < |cats|
      ensures var e := Entry(cats[i], all);
        var matches := Filter(all, InCategory(cats[i].name));
        && (forall c :: c in e.courses ==> c in all && c.category == cats[i].name)
        && e.courses == matches[..|e.courses|]
        && ((forall c :: c in all ==> c.category != cats[i].name) ==> e.courses == [])
    {
      var matches := Filter(all, InCategory(cats[i].name));
      var shown := Limit(matches, CoursesPerCategory);
      forall c | c in shown
        ensures c in matches
      {
        var k :| 0 <= k < |shown| && shown[k] == c;
        assert matches[k] == c;
      }
      assert shown == matches[..|shown|];
      if forall c :: c in all ==> c.category != cats[i].name {
        FilterNone(all, InCategory(cats[i].name));
      }
    }
  }

  /** A category joined to an active course gets that course's list, which is not empty and holds only active courses. */
  lemma EntryFromStore(cat: CategoryRow, courseRows: seq<CourseDTO>)
    requires CategoryStore.HasActiveCourse(courseRows)(cat)
    ensures var e := Entry(cat, CourseStore.FindAllActiveCourses(courseRows));
      e.courses != [] && forall c :: c in e.courses ==> IsActiveCourse(c) && c in courseRows
  {
    var active := CourseStore.FindAllActiveCourses(courseRows);
    var matches := Filter(active, InCategory(cat.name));
    var co :| co in courseRows && IsActiveCourse(co) && co.category == cat.name;
    assert co in active;
    assert co in matches;
    var shown := Limit(matches, CoursesPerCategory);
    forall c | c in shown
      ensures c in matches
    {
      var k :| 0 <= k < |shown| && shown[k] == c;
      assert matches[k] == c;
    }
  }

  /**
   * With the two queries the controller runs, every category shown has one to
   * four courses under it, and every course shown is active.
   */
  lemma HomeFromStores(categoryRows: seq<CategoryRow>, courseRows: seq<CourseDTO>)
    requires forall c :: c in courseRows ==> c.category.Some?
    ensures var feed := HomeFeed(Some(CategoryStore.FindCategoriesWithActiveCourses(categoryRows, courseRows)),
                                 Some(CourseStore.FindAllActiveCourses(courseRows)));
      && (forall e :: e in feed.categoriesWithCourses ==> 0 < |e.courses| <= CoursesPerCategory)
      && (forall e, c :: e in feed.categoriesWithCourses && c in e.courses ==> IsActiveCourse(c) && c in courseRows)
      && feed.totalCourses == |CourseStore.FindAllActiveCourses(courseRows)|
  {
    var cats := CategoryStore.FindCategoriesWithActiveCourses(categoryRows, courseRows);
    var active := CourseStore.FindAllActiveCourses(courseRows);
    CategoryStore.FindCategoriesWithActiveCoursesSpec(categoryRows, courseRows);
    var entries := HomeFeed(Some(cats), Some(active)).categoriesWithCourses;
    forall e | e in entries
      ensures 0 < |e.courses| <= CoursesPerCategory && forall c :: c in e.courses ==> IsActiveCourse(c) && c in courseRows
    {
      var i :| 0 <= i < |entries| && entries[i] == e;
      assert e == Entry(cats[i], active);
      assert cats[i] in cats;
      EntryFromStore(cats[i], courseRows);
    }
  }

  /** `LoginController`. */
  class LoginController {
    const categories: CategoryStore.CategoryRepository
    const courses: CourseStore.CourseRepository

    constructor (categories: CategoryStore.CategoryRepository, courses: CourseStore.CourseRepository)
      ensures this.categories == categories && this.courses == courses
    {
      this.categories := categories;
      this.courses := courses;
    }

    /** `home`: the feed over the categories with active courses and all active courses. */
    function Home(): (feed: Feed)
      reads categories, courses
      requires courses.Valid()
      ensures forall e :: e in feed.categoriesWithCourses ==> 0 < |e.courses| <= CoursesPerCategory
      ensures forall e, c :: e in feed.categoriesWithCourses && c in e.courses ==> IsActiveCourse(c) && c in courses.rows
      ensures feed.totalCourses == |CourseStore.FindAllActiveCourses(courses.rows)|
    {
      assert forall c :: c in courses.rows ==> c.category.Some?;
      HomeFromStores(categories.rows, courses.rows);
      HomeFeed(Some(CategoryStore.FindCategoriesWithActiveCourses(categories.rows, courses.rows)),
               Some(CourseStore.FindAllActiveCourses(courses.rows)))
    }
  }
}
