# Course administration backend — a Dafny model

This project models the core of a Spring Boot administration backend for an
online course catalogue. It proves properties of the model:

- **Courses**: the `Course` entity, its ACTIVE/INACTIVE life cycle, the new
  and edit forms, `CourseController.save`, `CourseController.create` and
  `CourseController.inactivateCourse`, and the queries of `CourseRepository`.
- **Categories**: the `Category` entity, its new and edit forms, the
  paginated `CategoryController.list`, `save` and `update`, and the queries of
  `CategoryRepository`, including the join over active courses.
- **Registrations**: `RegistrationController.createRegistration` (a guard
  chain over users, courses and the ledger), the report aggregated by course,
  and the queries of `RegistrationRepository`.
- **Landing page**: `LoginController.home`, which shows categories with up to
  four of their active courses.
- **`ErrorItemDTO`**, whose compact constructor checks its two components.

Each file follows the shape of its source:

- An entity updated through setters (`Course`, `Category`) is a `class`. Its
  columns are exposed as a value snapshot (`CourseDTO`, `CategoryRow`).
- A repository is a class holding its table as a `seq` of snapshots. Its
  derived queries are functions over that sequence.
- A controller is a class holding its repositories. Each request handler is a
  method proved equal to an outcome function `(Response, new table)`. The
  properties of the handler are proved about that function.

Modelling conventions:

- A Java `String` that may be null is `Option<string>` (`Constraints.Text`).
- `@NotBlank` follows `String.trim`: characters up to U+0020 count as blank.
- `@Size`, `@Length` and `@Pattern` accept null.
- The code pattern `^[a-zA-Z]+(-[a-zA-Z]+)*$` is recognised by a two-state
  automaton. That automaton is proved equal to a character-level description
  and to the regular expression's own structure.
- Java `int` arithmetic wraps modulo 2^32 (`JavaInt.Wrap`). Clock readings are
  a parameter `now`.
- JPA validates an entity's own constraints when it persists or updates it. A
  violation stores nothing, and `ValidationExceptionHandler` answers with the
  new-category form listing the violated properties (`Util.ConstraintViolation`).

Where the documented behaviour of the system and its code disagree, the model follows the code:

- In the documented behaviour, the landing page's category query matches course
  categories case-insensitively. The query
  (`CategoryRepository.java:15-21`) and the stream filter
  (`LoginController.java:41`) both use exact equality.
- The documented behaviour caps that query at nine categories. Despite its name
  `findTop9…`, the query has no limit.
- The documented course code has 4 to 15 characters. That is the
  forms' rule; the entity itself allows 4 to 10 (`Course.java:32`).
- In the documented behaviour, re-submitting INACTIVE through the course edit
  form changes nothing. The code calls `inactivate()` again, which replaces the
  inactivation date with the current time (`EditCourseForm.java:53-54`). The
  model does the same (`CourseForms.ReapplyOwnForm`, `CourseForms.AppliedSpec`).

## Model

| member | source | states |
|---|---|---|
| JavaInt.Wrap | src/main/java/br/com/alura/projeto/category/CategoryController.java:78 | Java `int` arithmetic yields the exact result modulo 2^32, and the exact result itself when it is in range |
| JavaInt.WrapAbove | src/main/java/br/com/alura/projeto/category/CategoryController.java:78 | a result above `INT_MAX` and below 2^32 wraps to that result minus 2^32, which is negative |
| Constraints.NotBlankNotNull | src/main/java/br/com/alura/projeto/course/Course.java:26 | a value that passes `@NotBlank` is present and non-empty |
| Constraints.WhitespaceIsBlank | src/main/java/br/com/alura/projeto/course/Course.java:26 | the empty string and strings of spaces, tabs and line breaks fail `@NotBlank` |
| Constraints.WellFormedAfterLetter | src/main/java/br/com/alura/projeto/course/Course.java:33 | a letter followed by `t` is a code exactly when `t` is empty, a code, or a hyphen followed by a code |
| Constraints.ScanAccepts | src/main/java/br/com/alura/projeto/course/Course.java:33 | from each state, the recogniser accepts exactly the well-formed remainders |
| Constraints.IsCodeCorrect | src/main/java/br/com/alura/projeto/course/Course.java:33 | the recogniser accepts exactly the non-empty strings of ASCII letters with single inner hyphens |
| Constraints.CodeHasOnlyLettersAndHyphens | src/main/java/br/com/alura/projeto/course/Course.java:33 | every character of an accepted code is an ASCII letter or a hyphen: no digit and no space |
| Constraints.HyphensOnlyInside | src/main/java/br/com/alura/projeto/course/Course.java:33 | a leading, trailing or doubled hyphen is rejected |
| Constraints.CodeIsNotBlank | src/main/java/br/com/alura/projeto/course/Course.java:31-33 | an accepted code always passes `@NotBlank` |
| Constraints.JoinCodes | src/main/java/br/com/alura/projeto/course/Course.java:33 | two codes joined by one hyphen form a code |
| Constraints.PatternAfterLetter | src/main/java/br/com/alura/projeto/course/Course.java:33 | the regular expression's language after a leading letter: `(-[a-zA-Z]+)*` or the language again |
| Constraints.HyphenWordsAfterHyphen | src/main/java/br/com/alura/projeto/course/Course.java:33 | `(-[a-zA-Z]+)*` after a leading hyphen is the language itself |
| Constraints.PatternStartsWithLetter | src/main/java/br/com/alura/projeto/course/Course.java:33 | a string that starts with anything but a letter does not match |
| Constraints.ScanMatchesPattern | src/main/java/br/com/alura/projeto/course/Course.java:33 | each recogniser state accepts exactly the corresponding part of `^[a-zA-Z]+(-[a-zA-Z]+)*$` |
| Constraints.IsCodeMatchesPattern | src/main/java/br/com/alura/projeto/course/Course.java:33 | the recogniser accepts exactly the strings the regular expression matches |
| Util.MakeErrorItem | src/main/java/br/com/alura/projeto/util/ErrorItemDTO.java:12-19 | the record is built exactly when field and message are non-null and non-empty; otherwise the first failing check, in source order, gives its message |
| Util.ErrorItemRoundTrip | src/main/java/br/com/alura/projeto/util/ErrorItemDTO.java:6-19 | every record built can be rebuilt from its own two components |
| Util.BlankErrorItemAccepted | src/main/java/br/com/alura/projeto/util/ErrorItemDTO.java:12-19 | only emptiness is checked: a whitespace-only field or message is accepted as given |
| Util.ConstraintViolation | src/main/java/br/com/alura/projeto/util/ValidationExceptionHandler.java:26-46 | the handler renders `admin/category/newForm`, whichever entity failed, with the violated properties; `CourseStore.SaveOutcomeSpec` and `CategoryStore.UpdateRefusals` state when it answers |
| Courses.CodeValidIff | src/main/java/br/com/alura/projeto/course/Course.java:31-36 | the entity's code rule is a present, well-formed code of 4 to 10 characters |
| Courses.Violations | src/main/java/br/com/alura/projeto/course/Course.java:24-50 | the properties Bean Validation reports: none exactly when the course satisfies every column constraint, and `code` exactly when the entity's code rule fails |
| Courses.RequiredFieldsPresent | src/main/java/br/com/alura/projeto/course/Course.java:26-50 | a course passing its checks has name, code, instructor and category, within 100, 100 and 50 characters; a description has at most 500 |
| Courses.InactivatedSpec | src/main/java/br/com/alura/projeto/course/Course.java:75-78 | `inactivate` makes the course inactive with inactivation date `now` and changes no other column |
| Courses.Inactivated | src/main/java/br/com/alura/projeto/course/Course.java:75-78 | the columns `inactivate` leaves; `InactivatedSpec` states them: inactive, dated `now`, nothing else changed |
| Courses.ActivatedSpec | src/main/java/br/com/alura/projeto/course/Course.java:80-83 | `activate` makes the course active with no inactivation date and changes no other column |
| Courses.Activated | src/main/java/br/com/alura/projeto/course/Course.java:80-83 | the columns `activate` leaves; `ActivatedSpec` states them: active, undated, nothing else changed |
| Courses.TransitionsOverwrite | src/main/java/br/com/alura/projeto/course/Course.java:75-83 | each transition overwrites the previous one; activating an inactivated course that was active restores it exactly |
| Courses.TransitionsKeepConstraints | src/main/java/br/com/alura/projeto/course/Course.java:75-83 | neither transition changes whether the course satisfies its column checks |
| Courses.SameCourseIsEquivalence | src/main/java/br/com/alura/projeto/course/Course.java:19-36 | the generated `equals` is an equivalence that depends on the code alone, not on status or any other column |
| Courses.Course.constructor | src/main/java/br/com/alura/projeto/course/Course.java:52-73 | a new course holds the five arguments, is ACTIVE, has no id and no inactivation date |
| Courses.Course.Inactivate | src/main/java/br/com/alura/projeto/course/Course.java:75-78 | the entity's new columns are `Inactivated(old columns, now)` |
| Courses.Course.Activate | src/main/java/br/com/alura/projeto/course/Course.java:80-83 | the entity's new columns are `Activated(old columns)` |
| Courses.Course.IsActive | src/main/java/br/com/alura/projeto/course/Course.java:85-87 | `isActive`: the status is ACTIVE. `InactivatedSpec` and `ActivatedSpec` state that inactivating makes it false and activating makes it true |
| CourseForms.FieldViolations | src/main/java/br/com/alura/projeto/course/NewCourseForm.java:13-31 | the failing fields are a subset of the five field names |
| CourseForms.NoViolationsIff | src/main/java/br/com/alura/projeto/course/NewCourseForm.java:13-31 | the form passes exactly when each of its five fields passes its own constraints |
| CourseForms.FormCodeValidIff | src/main/java/br/com/alura/projeto/course/NewCourseForm.java:17-20 | the forms' code rule is a present, well-formed code of 4 to 15 characters |
| CourseForms.FormCodeAgainstEntity | src/main/java/br/com/alura/projeto/course/NewCourseForm.java:17-20 | a code the forms accept passes the entity's rule exactly when it has at most 10 characters |
| CourseForms.AcceptedExampleCodes | src/test/java/br/com/alura/projeto/course/NewCourseFormTest.java:318 | the forms accept `java`, `react-js` and `node-js` |
| CourseForms.AcceptedLongExampleCodes | src/test/java/br/com/alura/projeto/course/NewCourseFormTest.java:318 | the forms accept `spring-boot` and `python-django` |
| CourseForms.ValidFormCode | src/main/java/br/com/alura/projeto/course/NewCourseForm.java:17-20 | every code of 4 to 15 characters passes the forms' code rule |
| CourseForms.RejectedExampleCodes | src/test/java/br/com/alura/projeto/course/CourseControllerIntegrationTest.java:188 | the forms reject `123`, `ab`, `spring boot` and `very-very-very-long-code` |
| CourseForms.FormOnlyExampleCode | src/main/java/br/com/alura/projeto/course/Course.java:32 | `react-native` passes the forms but not the entity |
| CourseForms.NewCourseForm.Model | src/main/java/br/com/alura/projeto/course/NewCourseForm.java:33-35 | `toModel` builds an unsaved, ACTIVE course holding the five form fields, with no inactivation date |
| CourseForms.NewCourseForm.ToModel | src/main/java/br/com/alura/projeto/course/NewCourseForm.java:33-35 | `toModel` returns a fresh entity whose columns are the form's model |
| CourseForms.ValidNewFormModel | src/main/java/br/com/alura/projeto/course/NewCourseForm.java:13-35 | a valid form builds a consistent course, which satisfies the entity's checks exactly when its code has at most 10 characters |
| CourseForms.NewFormBlankFields | src/main/java/br/com/alura/projeto/course/NewCourseForm.java:13-31 | blank required fields are reported; a missing or empty description is not; a description over 500 characters is |
| CourseForms.FormOf | src/main/java/br/com/alura/projeto/course/EditCourseForm.java:35-42 | the copy constructor takes the five text fields and the status of the course |
| CourseForms.AppliedSpec | src/main/java/br/com/alura/projeto/course/EditCourseForm.java:44-56 | `updateCourse` copies the five fields and keeps the id and creation time. ACTIVE then activates, INACTIVE inactivates at `now`, and a null status leaves status and date alone |
| CourseForms.Applied | src/main/java/br/com/alura/projeto/course/EditCourseForm.java:44-56 | the columns `updateCourse` leaves; `AppliedSpec`, `AppliedConsistent` and `ReapplyOwnForm` state them |
| CourseForms.AppliedConsistent | src/main/java/br/com/alura/projeto/course/EditCourseForm.java:51-55 | after `updateCourse` an inactive course has a date and an active one none, when the form has a status or the course was consistent |
| CourseForms.ReapplyOwnForm | src/main/java/br/com/alura/projeto/course/EditCourseForm.java:35-56 | a course's own form applied back changes nothing except, on an inactive course, the inactivation date |
| CourseForms.UpdateCourse | src/main/java/br/com/alura/projeto/course/EditCourseForm.java:44-56 | the entity's new columns are `Applied(form, old columns, now)` |
| Categories.CodeValidIff | src/main/java/br/com/alura/projeto/category/Category.java:29-32 | the entity's code rule is a present, well-formed code of 4 to 15 characters |
| Categories.Violations | src/main/java/br/com/alura/projeto/category/Category.java:26-40 | the properties Bean Validation reports: none exactly when the category satisfies every column constraint, and `code` exactly when the entity's code rule fails |
| Categories.AcceptedExampleCodes | src/test/java/br/com/alura/projeto/category/CategoryTest.java:209 | the entity accepts `prog`, `front-end`, `data-science`, `mobile` and `devops` |
| Categories.NonPositiveOrderRefused | src/main/java/br/com/alura/projeto/category/Category.java:37-40 | an order below 1 fails the entity's checks |
| Categories.Category.constructor | src/main/java/br/com/alura/projeto/category/Category.java:42-49 | a new category holds the four arguments, has no id, and is stamped with `now` |
| CategoryForms.FieldViolations | src/main/java/br/com/alura/projeto/category/NewCategoryForm.java:10-22 | the failing fields are a subset of the four field names and empty exactly when all four pass |
| CategoryForms.NewCategoryForm.Model | src/main/java/br/com/alura/projeto/category/NewCategoryForm.java:24-26 | `toModel` builds an unsaved category with the form's four fields, created at `now` |
| CategoryForms.NewCategoryForm.ToModel | src/main/java/br/com/alura/projeto/category/NewCategoryForm.java:24-26 | `toModel` returns a fresh entity whose columns are the form's model |
| CategoryForms.DefaultNewFormInvalid | src/main/java/br/com/alura/projeto/category/NewCategoryForm.java:10-22 | a form with null strings and order 0 fails on all four fields |
| CategoryForms.ValidNewFormModel | src/main/java/br/com/alura/projeto/category/NewCategoryForm.java:10-26 | a category built from a valid new form satisfies the entity's checks |
| CategoryForms.EntityCodeAgainstNewForm | src/main/java/br/com/alura/projeto/category/NewCategoryForm.java:13-16 | a code the entity accepts passes the new form exactly when it has at most 10 characters |
| CategoryForms.NewFormBoundaries | src/test/java/br/com/alura/projeto/category/NewCategoryFormTest.java:352-369 | codes of 4 and 10 letters pass and 3 and 11 fail; order 1 up to `INT_MAX` passes, 0 and -1 fail |
| CategoryForms.FormOf | src/main/java/br/com/alura/projeto/category/EditCategoryForm.java:24-29 | the copy constructor takes the category's four fields |
| CategoryForms.UpdatedSpec | src/main/java/br/com/alura/projeto/category/EditCategoryForm.java:31-36 | `updateCategory` copies all four fields, invalid ones included, keeps id and creation time, and the copy constructor reads them back |
| CategoryForms.Updated | src/main/java/br/com/alura/projeto/category/EditCategoryForm.java:31-36 | the columns `updateCategory` leaves; `UpdatedSpec`, `UpdatedOverwrites` and `EditFormCanBreakEntity` state them |
| CategoryForms.ReapplyOwnForm | src/main/java/br/com/alura/projeto/category/EditCategoryForm.java:24-36 | a category's own form applied back leaves it unchanged |
| CategoryForms.UpdatedOverwrites | src/main/java/br/com/alura/projeto/category/EditCategoryForm.java:31-36 | applying a form after any other form is the same as applying it alone |
| CategoryForms.EditFormAcceptsAnyCharacters | src/test/java/br/com/alura/projeto/category/EditCategoryFormTest.java:148-190 | the edit form accepts `prog123`, `prog code` and `prog@#$`, which the new form refuses |
| CategoryForms.NewFormCodeIsEditFormCode | src/main/java/br/com/alura/projeto/category/EditCategoryForm.java:12-14 | every code the new form accepts, the edit form accepts |
| CategoryForms.EditFormCanBreakEntity | src/main/java/br/com/alura/projeto/category/EditCategoryForm.java:12-36 | a valid edit form applied to a valid category can leave a category that breaks the entity's code rule |
| CategoryForms.UpdateCategory | src/main/java/br/com/alura/projeto/category/EditCategoryForm.java:31-36 | the entity's new columns are `Updated(form, old columns)` |
| CategoryStore.IdsDistinctRowsDistinct | src/main/java/br/com/alura/projeto/category/Category.java:22-24 | rows with distinct generated ids are distinct rows |
| CategoryStore.FindById | src/main/java/br/com/alura/projeto/category/CategoryController.java:148-151 | a row found has that id; nothing is found exactly when no row has it |
| CategoryStore.FindByIdAt | src/main/java/br/com/alura/projeto/category/CategoryController.java:148-151 | with distinct ids, looking up a row's id finds that row |
| CategoryStore.FindAllOrderedByOrder | src/main/java/br/com/alura/projeto/category/CategoryRepository.java:12-13 | the query `ORDER BY c.order ASC`; `FindAllOrderedByOrderSpec` states it is a stable ascending permutation of the table |
| CategoryStore.FindAllOrderedByOrderSpec | src/main/java/br/com/alura/projeto/category/CategoryRepository.java:12-13 | the result is a permutation of the table, ascending by `order`; categories of equal order keep table order |
| CategoryStore.FindCategoriesWithActiveCourses | src/main/java/br/com/alura/projeto/category/CategoryRepository.java:15-21 | the join query; `FindCategoriesWithActiveCoursesSpec` states which categories it returns and in what order |
| CategoryStore.FindCategoriesWithActiveCoursesSpec | src/main/java/br/com/alura/projeto/category/CategoryRepository.java:15-21 | a category is returned exactly when its name equals the category of some active course. The result is ascending by order, has no duplicates when ids are distinct, and is not capped |
| CategoryStore.Slice | src/main/java/br/com/alura/projeto/category/CategoryController.java:37-38 | the page is the run of at most `size` rows from `offset`, and empty past the end |
| CategoryStore.FindPage | src/main/java/br/com/alura/projeto/category/CategoryController.java:37-38 | the request fails exactly for a negative page, a size below one, or an offset `page * size` above `INT_MAX`, which the query's `int` first-result position cannot hold; otherwise its content is that slice of the table ordered by `order` |
| CategoryStore.TotalPages | src/main/java/br/com/alura/projeto/category/CategoryController.java:61 | the page count is the least number of pages of `size` that holds every item, capped at `INT_MAX` |
| CategoryStore.StartPage | src/main/java/br/com/alura/projeto/category/CategoryController.java:63 | `Math.max(0, currentPage - 2)`; `PageLinksSpec` bounds it |
| CategoryStore.EndPage | src/main/java/br/com/alura/projeto/category/CategoryController.java:64 | the last page link without overflow; `PageLinksSpec` bounds it and `EndPageOverflows` compares it with the source |
| CategoryStore.StartItem | src/main/java/br/com/alura/projeto/category/CategoryController.java:78 | the first item position without overflow; `ItemRangeSpec` bounds it and `StartItemOverflows` compares it with the source |
| CategoryStore.EndItem | src/main/java/br/com/alura/projeto/category/CategoryController.java:79 | the last item position without overflow; `ItemRangeSpec` bounds it and `EndItemOverflows` compares it with the source |
| CategoryStore.PageLinksSpec | src/main/java/br/com/alura/projeto/category/CategoryController.java:63-64 | at most five page links, none before page 0 or after the last page, and the current page is among them when it exists |
| CategoryStore.ItemRangeSpec | src/main/java/br/com/alura/projeto/category/CategoryController.java:37-79 | the item positions stay within 1 and the total. An existing page is always served, and its positions span exactly the items shown; a served page past the end is empty |
| CategoryStore.List | src/main/java/br/com/alura/projeto/category/CategoryController.java:32-82 | the list fails exactly when `PageRequest.of` or the offset check does; otherwise it shows the ordered slice, the total, an end item within the total and at most five page links, with the corrected item and page positions of ## Findings |
| CategoryStore.CategoryController.ListPage | src/main/java/br/com/alura/projeto/category/CategoryController.java:32-82 | `list` on the repository's table fails exactly for a bad page, size or offset, and otherwise shows the ordered slice with the total and an end item within it, with the corrected item and page positions of ## Findings |
| CategoryStore.StartItemAsWritten | src/main/java/br/com/alura/projeto/category/CategoryController.java:78 | (as written) `page * size + 1` computed in `int` |
| CategoryStore.EndItemAsWritten | src/main/java/br/com/alura/projeto/category/CategoryController.java:79 | (as written) `page + 1` computed in `int` before the cast to `long` |
| CategoryStore.EndPageAsWritten | src/main/java/br/com/alura/projeto/category/CategoryController.java:64 | (as written) `currentPage + 2` computed in `int` |
| CategoryStore.AsWrittenAgreesWithoutOverflow | src/main/java/br/com/alura/projeto/category/CategoryController.java:64-79 | where the `int` computations do not overflow, the code as written gives the intended positions |
| CategoryStore.StartItemOverflows | src/main/java/br/com/alura/projeto/category/CategoryController.java:37-78 | page 1 of size `INT_MAX` is served and reports its first item at `INT_MIN` instead of `INT_MAX + 1` |
| CategoryStore.EndItemOverflows | src/main/java/br/com/alura/projeto/category/CategoryController.java:37-79 | page `INT_MAX` of size 1 is served and reports its last item at `INT_MIN` instead of the total |
| CategoryStore.EndPageOverflows | src/main/java/br/com/alura/projeto/category/CategoryController.java:37-64 | page `INT_MAX` of size 1 is served, and its last page link is `INT_MIN + 1`, below the first one, instead of the last page |
| CategoryStore.CategoryRepository.constructor | src/main/java/br/com/alura/projeto/category/CategoryRepository.java:8 | the table starts empty |
| CategoryStore.CategoryRepository.Insert | src/main/java/br/com/alura/projeto/category/CategoryController.java:118 | saving a new category appends it with the next generated id, which is also set on the entity |
| CategoryStore.CategoryRepository.Update | src/main/java/br/com/alura/projeto/category/CategoryController.java:162 | saving a stored category replaces its row |
| CategoryStore.Replace | src/main/java/br/com/alura/projeto/category/CategoryController.java:162 | the row with the entity's id is replaced; every other row and the length are kept |
| CategoryStore.ExistsByCode | src/main/java/br/com/alura/projeto/category/CategoryRepository.java:10 | `existsByCode`: some stored category has the code. `SaveOutcomeSpec` and `UpdateRefusals` state the refusals it drives |
| CategoryStore.SaveOutcome | src/main/java/br/com/alura/projeto/category/CategoryController.java:106-120 | `save` as a response and a new table; `SaveOutcomeSpec` and `SavePreservesInvariants` state its properties |
| CategoryStore.SaveOutcomeSpec | src/main/java/br/com/alura/projeto/category/CategoryController.java:106-120 | an invalid form, or a code already stored, redisplays the form and stores nothing. Otherwise the form's category is appended and the response redirects to the list |
| CategoryStore.SavePreservesInvariants | src/main/java/br/com/alura/projeto/category/CategoryController.java:106-120 | `save` keeps codes present and unique and every row valid, and with a fresh `nextId` keeps ids unique and below the next one |
| CategoryStore.UpdateOutcome | src/main/java/br/com/alura/projeto/category/CategoryController.java:139-165 | `update` as a response and a new table, with the entity validated on flush; `UpdateRefusals`, `UpdateKeepingCode`, `UpdateSuccess` and `UpdatePreservesInvariants` state its properties |
| CategoryStore.UpdateRefusals | src/main/java/br/com/alura/projeto/category/CategoryController.java:139-165 | validation errors redisplay the form with the failing fields; an unknown id redirects; a changed code already stored is rejected with "Código já existe" on `code`; an updated entity that fails its own constraints is answered by the exception handler. None of these changes the table |
| CategoryStore.UpdateKeepingCode | src/main/java/br/com/alura/projeto/category/CategoryController.java:155-165 | a valid form that keeps the code never consults other rows: the entity check alone decides, a valid stored row always passes it, and then only that row changes |
| CategoryStore.UpdateSuccess | src/main/java/br/com/alura/projeto/category/CategoryController.java:161-164 | a successful update changes only the row with that id, which takes the form's four fields and satisfies the entity's constraints |
| CategoryStore.UpdateToUnpatternedCodeRefused | src/main/java/br/com/alura/projeto/category/CategoryController.java:139-165 | renaming a valid category's code to `prog123` passes the edit form and the uniqueness check, then the entity refuses it on `code` and the table is unchanged |
| CategoryStore.UpdatePreservesInvariants | src/main/java/br/com/alura/projeto/category/CategoryController.java:139-165 | `update` keeps ids unique, codes present and unique, and every row valid |
| CategoryStore.CategoryController.Save | src/main/java/br/com/alura/projeto/category/CategoryController.java:106-120 | the response and the new table are `SaveOutcome` of the old table |
| CategoryStore.CategoryController.Update | src/main/java/br/com/alura/projeto/category/CategoryController.java:139-165 | the response and the new table are `UpdateOutcome` of the old table |
| CourseStore.ExistsByCode | src/main/java/br/com/alura/projeto/course/CourseRepository.java:12 | `existsByCode`: some stored course has the code. `ExistsIffFound` states that this holds exactly when `findByCode` finds a course |
| CourseStore.FindByCode | src/main/java/br/com/alura/projeto/course/CourseRepository.java:14 | a course found has that code and is in the table |
| CourseStore.ExistsIffFound | src/main/java/br/com/alura/projeto/course/CourseRepository.java:12-14 | `existsByCode` holds exactly when `findByCode` finds a course |
| CourseStore.FindByCodeAt | src/main/java/br/com/alura/projeto/course/CourseRepository.java:14 | with unique codes, looking up a row's code finds that row and no other row has that code |
| CourseStore.FindById | src/main/java/br/com/alura/projeto/course/CourseRepository.java:10 | a row found has that id; nothing is found exactly when no row has it |
| CourseStore.FindByIdAt | src/main/java/br/com/alura/projeto/course/CourseRepository.java:10 | with distinct ids, looking up a row's id finds that row |
| CourseStore.SameCourseIsIdentity | src/main/java/br/com/alura/projeto/course/Course.java:34-35 | with unique codes, the generated `equals` holds exactly for the same row |
| CourseStore.FindAllActiveCourses | src/main/java/br/com/alura/projeto/course/CourseRepository.java:16-17 | the query `status = 'ACTIVE'`; `FindAllActiveCoursesSpec` states its contents |
| CourseStore.NewestFirst | src/main/java/br/com/alura/projeto/course/CourseRepository.java:19-23 | the key of `ORDER BY c.createdAt DESC`; `SortedNewestFirst` states that sorting on it puts the newest first |
| CourseStore.FindActiveCoursesByCategory | src/main/java/br/com/alura/projeto/course/CourseRepository.java:19-20 | the query by category; `FindActiveCoursesByCategorySpec` states its contents and order |
| CourseStore.FindAllActiveCoursesOrdered | src/main/java/br/com/alura/projeto/course/CourseRepository.java:22-23 | the ordered query; `FindAllActiveCoursesOrderedSpec` states its contents and order |
| CourseStore.SortedNewestFirst | src/main/java/br/com/alura/projeto/course/CourseRepository.java:22-23 | a list sorted on the newest-first key has non-increasing creation times |
| CourseStore.FindAllActiveCoursesSpec | src/main/java/br/com/alura/projeto/course/CourseRepository.java:16-17 | exactly the active courses, each as often as in the table; all of them or none as the table is |
| CourseStore.FindActiveCoursesByCategorySpec | src/main/java/br/com/alura/projeto/course/CourseRepository.java:19-20 | exactly the active courses of that category, newest first: the all-courses ordered query restricted to the category |
| CourseStore.FindAllActiveCoursesOrderedSpec | src/main/java/br/com/alura/projeto/course/CourseRepository.java:22-23 | the active courses reordered newest first |
| CourseStore.ActiveQueriesExcludeInactive | src/main/java/br/com/alura/projeto/course/CourseRepository.java:16-23 | no inactive course is returned by any of the three active queries |
| CourseStore.Replace | src/main/java/br/com/alura/projeto/course/CourseController.java:96 | the row with the entity's id is replaced; every other row and the length are kept |
| CourseStore.CourseRepository.constructor | src/main/java/br/com/alura/projeto/course/CourseRepository.java:10 | the table starts empty |
| CourseStore.CourseRepository.Insert | src/main/java/br/com/alura/projeto/course/CourseController.java:73 | saving a new course appends it with the next generated id and creation time `now`, both also set on the entity |
| CourseStore.CourseRepository.Update | src/main/java/br/com/alura/projeto/course/CourseController.java:96 | saving a stored course replaces its row |
| CourseStore.ReplaceKeepsInvariants | src/main/java/br/com/alura/projeto/course/CourseController.java:95-96 | overwriting a row with one of the same id, code and creation time keeps ids and codes unique and the columns filled in |
| CourseStore.SaveOutcome | src/main/java/br/com/alura/projeto/course/CourseController.java:55-75 | `save` as a response and a new table, with the entity validated on persist; `SaveOutcomeSpec` and `SavePreservesInvariants` state its properties |
| CourseStore.SaveOutcomeSpec | src/main/java/br/com/alura/projeto/course/CourseController.java:55-75 | an invalid form, or a code already stored, redisplays the form; a code of 11 to 15 characters, which the form accepts and the entity refuses, is answered by the exception handler on `code`; none of these stores anything. Otherwise one active course with the form's fields and creation time `now` is appended |
| CourseStore.SavePreservesInvariants | src/main/java/br/com/alura/projeto/course/CourseController.java:55-75 | `save` keeps codes unique, the non-null columns filled in and every row valid |
| CourseStore.InactivateOutcome | src/main/java/br/com/alura/projeto/course/CourseController.java:77-99 | `inactivateCourse` as a response and a new table; `InactivateOutcomeSpec`, `InactivatePreservesInvariants` and `InactivateTwice` state its properties |
| CourseStore.InactivateOutcomeSpec | src/main/java/br/com/alura/projeto/course/CourseController.java:77-99 | an unknown code is NotFound "Curso não encontrado" on `code`; an inactive course is BadRequest "Curso já está inativo" on `status`; neither changes the table. An active course becomes inactive at `now` and no other row changes |
| CourseStore.InactivatePreservesInvariants | src/main/java/br/com/alura/projeto/course/CourseController.java:77-99 | `inactivateCourse` keeps ids and codes unique, the columns filled in and every row valid |
| CourseStore.InactivateTwice | src/main/java/br/com/alura/projeto/course/CourseController.java:90-93 | a second inactivation of the same code is refused and changes nothing |
| CourseStore.CourseController.Create | src/main/java/br/com/alura/projeto/course/CourseController.java:44-53 | the category list is a permutation of the table, ascending by order, with equal orders in table order |
| CourseStore.CourseController.Save | src/main/java/br/com/alura/projeto/course/CourseController.java:55-75 | the response and the new table are `SaveOutcome` of the old table |
| CourseStore.CourseController.InactivateCourse | src/main/java/br/com/alura/projeto/course/CourseController.java:77-99 | the response and the new table are `InactivateOutcome` of the old table |
| Registrations.NewRegistrationDTO.Violations | src/main/java/br/com/alura/projeto/registration/NewRegistrationDTO.java:13-20 | the failing fields are a subset of the two field names, and empty exactly when both pass `@NotBlank` |
| Registrations.FindUserByEmail | src/main/java/br/com/alura/projeto/registration/RegistrationController.java:35-39 | a user found has that e-mail; nothing is found exactly when no user has it |
| Registrations.ExistsByUserAndCourse | src/main/java/br/com/alura/projeto/registration/RegistrationRepository.java:14 | `existsByUserAndCourse`; `OutcomeKeepsPairsDistinct` and `RepeatIsConflict` state what the guard on it achieves |
| Registrations.FindAllActiveRegistrations | src/main/java/br/com/alura/projeto/registration/RegistrationRepository.java:16-17 | the query over the joined course's status; `FiltersSpec` states its contents |
| Registrations.FindByUserEmail | src/main/java/br/com/alura/projeto/registration/RegistrationRepository.java:33-34 | the query over the joined user's e-mail; `FiltersSpec` states its contents |
| Registrations.FindByCourseCode | src/main/java/br/com/alura/projeto/registration/RegistrationRepository.java:36-37 | the query over the joined course's code; `FiltersSpec` and `FindByCourseCodeIsFindByCode` state its contents |
| Registrations.FiltersSpec | src/main/java/br/com/alura/projeto/registration/RegistrationRepository.java:16-37 | each filter keeps exactly the registrations whose joined course is active, whose user has that e-mail, or whose course has that code |
| Registrations.FindByCourseCodeIsFindByCode | src/main/java/br/com/alura/projeto/registration/RegistrationRepository.java:36-37 | with unique codes, the registrations by course code are those of the course `findByCode` finds, and none when it finds none |
| Registrations.Groups | src/main/java/br/com/alura/projeto/registration/RegistrationRepository.java:19-31 | there are as many groups as active courses with at least one registration |
| Registrations.GroupsMembers | src/main/java/br/com/alura/projeto/registration/RegistrationRepository.java:19-31 | a row is reported exactly when it is the row of an active course with registrations, counting that course's registrations |
| Registrations.GroupsSum | src/main/java/br/com/alura/projeto/registration/RegistrationRepository.java:19-31 | with unique course ids, the totals add up to the number of registrations on active courses |
| Registrations.CourseRegistrationReport | src/main/java/br/com/alura/projeto/registration/RegistrationRepository.java:19-31 | the native report query; `CourseRegistrationReportSpec` states its rows, totals and order |
| Registrations.CourseRegistrationReportSpec | src/main/java/br/com/alura/projeto/registration/RegistrationRepository.java:19-31 | a row is reported exactly for each active course with registrations, with a positive total and the instructor in both instructor columns. The totals are in non-increasing order and, with unique course ids, add up to the registrations on active courses |
| Registrations.ReportItems | src/main/java/br/com/alura/projeto/registration/RegistrationController.java:70-78 | each repository row becomes one item holding its five columns, in the same order |
| Registrations.ReportItemsSpec | src/main/java/br/com/alura/projeto/registration/RegistrationController.java:66-81 | the items keep the report's order by total and its row count; the instructor column fills both name and e-mail |
| Registrations.RegistrationOutcome | src/main/java/br/com/alura/projeto/registration/RegistrationController.java:33-64 | `createRegistration` as a response and a new ledger; the five lemmas below state its properties |
| Registrations.OutcomeChangesLedgerOnlyOnCreated | src/main/java/br/com/alura/projeto/registration/RegistrationController.java:33-64 | only a Created outcome changes the ledger, and then by appending exactly one registration |
| Registrations.OutcomePrecedence | src/main/java/br/com/alura/projeto/registration/RegistrationController.java:35-58 | the guards apply in source order; an unknown user gives the same NotFound whatever the courses are |
| Registrations.CreatedOnlyForActiveCourse | src/main/java/br/com/alura/projeto/registration/RegistrationController.java:50-63 | a created registration pairs a user with the requested e-mail and a stored active course with the requested code |
| Registrations.OutcomeKeepsPairsDistinct | src/main/java/br/com/alura/projeto/registration/RegistrationController.java:55-63 | the ledger never holds the same user and course twice |
| Registrations.RepeatIsConflict | src/main/java/br/com/alura/projeto/registration/RegistrationController.java:55-58 | repeating a request that created a registration gives Conflict and changes nothing |
| Registrations.RegistrationRepository.constructor | src/main/java/br/com/alura/projeto/registration/RegistrationRepository.java:12 | the ledger starts empty |
| Registrations.RegistrationRepository.Insert | src/main/java/br/com/alura/projeto/registration/RegistrationController.java:60-61 | saving a registration appends it with the next generated id |
| Registrations.RegistrationController.CreateRegistration | src/main/java/br/com/alura/projeto/registration/RegistrationController.java:33-64 | the response and the new ledger are `RegistrationOutcome` of the old ledger |
| Registrations.RegistrationController.Report | src/main/java/br/com/alura/projeto/registration/RegistrationController.java:66-81 | `report` on the two tables: one item per active course with registrations, by non-increasing total |
| Home.OrEmpty | src/main/java/br/com/alura/projeto/login/LoginController.java:27-35 | a null list reads as an empty one |
| Home.NullIsEmpty | src/main/java/br/com/alura/projeto/login/LoginController.java:27-35 | a null category or course list gives the same page as an empty one |
| Home.HomeFeed | src/main/java/br/com/alura/projeto/login/LoginController.java:25-54 | `home` given what the two queries returned; `HomeFeedSpec` and `NullIsEmpty` state its properties |
| Home.HomeFeedSpec | src/main/java/br/com/alura/projeto/login/LoginController.java:25-54 | one entry per category, in order. Each entry holds the first matching courses in list order, at most four and all of them when fewer. The total counts every course |
| Home.EntryFromStore | src/main/java/br/com/alura/projeto/login/LoginController.java:38-48 | a category joined to an active course gets a non-empty list of active courses |
| Home.HomeFromStores | src/main/java/br/com/alura/projeto/login/LoginController.java:25-54 | with the two repository queries, every category shown has one to four courses, every course shown is active, and the total is the number of active courses |
| Home.LoginController.Home | src/main/java/br/com/alura/projeto/login/LoginController.java:25-54 | on the repositories' tables, each entry holds between one and four courses, all of them active and stored, and the total is the number of active courses |

## Left out

- String lengths count Unicode code points as Dafny characters, not UTF-16 units as Java does; the sources use no characters outside the basic plane.
- `@Email` on `NewRegistrationDTO.studentEmail` is not modelled: an address is looked up as given.
- Util.ConstraintViolation: the handler's view carries the violated property names only. The messages it adds as `error_<property>` attributes and the blank `newCategoryForm` are not modelled. Neither is the commit exception that wraps the violation on `update`, which the handler reaches through its cause.
- CourseStore.InactivateOutcome: the entity's validation on update is not modelled. Rows stored through `save` satisfy the entity's constraints and inactivation keeps them (`CourseStore.InactivatePreservesInvariants`), so it passes on every such table.
- CategoryStore.SaveOutcome: the entity's validation on persist is not modelled as a separate branch, because a valid new form always builds a valid entity (`CategoryForms.ValidNewFormModel`).
- `updatedAt` and `@UpdateTimestamp` are not modelled. The clock behind `LocalDateTime.now()` and `@CreationTimestamp` is the parameter `now`.
- Transactions, concurrency and the database's unique index are not modelled; requests run one at a time.
- SQL collation is not modelled: string comparison is exact. Rows with equal `ORDER BY` keys keep table order, where the database leaves their order open.
- View model attributes, the datagrid column and action maps, and the HTTP layer are not modelled: a response is a `Util.Response` value.
- The `MethodArgumentNotValidException` handler of `ValidationExceptionHandler` and the `ErrorItemDTO(FieldError)` constructor are not modelled; they only copy Spring's `FieldError`.
- `User`, `UserListItemDTO` and the MD5 password hashing are not modelled. The user table is a parameter, and `findByEmail` returns the first user with that e-mail (`UserRepository.java` is not part of this model).
- `CourseController.list`, `CategoryController.create` and `CategoryController.edit` only render views with a plain listing or copy; they are not modelled.
- CategoryStore.TotalPages: computed with exact integers instead of Spring's rounding through `double`, which agrees for every table of at most `INT_MAX` rows.
- CategoryStore.FindPage: the failure messages stand for those that Spring Data's `PageRequest.of` and `findAll` throw; their other checks are not modelled.
- Home.HomeFeed: requires every course to have a category, because the stream calls `getCategory().equals` and a null category throws `NullPointerException`. The column is `NOT NULL`, so stored rows always have one (`CourseStore.ColumnsPresent`), and `LoginController.Home` needs only the repository's invariant.
- CategoryStore.UpdateOutcome: requires every stored category to have a code, because `getCode().equals` throws on a null code. The controllers never store a null code.
- CourseStore.NewestFirst: ranks a course with no creation time as time 0. The column is `NOT NULL`, so stored rows always have one (`CourseStore.ColumnsPresent`).
- Registrations.RegistrationOutcome: requires every stored course to have an id. Stored rows always have one.

## Findings

| source | as written | input that shows it | evidently intended | confidence | as-written member | corrected member |
|---|---|---|---|---|---|---|
| src/main/java/br/com/alura/projeto/category/CategoryController.java:78 | `page * size + 1` in `int` arithmetic | page 1, size `INT_MAX` (offset `INT_MAX`, which `findAll` serves) gives `INT_MIN` | the 1-based position of the page's first item, computed in `long` | not executed | CategoryStore.StartItemAsWritten, CategoryStore.StartItemOverflows | CategoryStore.StartItem, CategoryStore.ItemRangeSpec |
| src/main/java/br/com/alura/projeto/category/CategoryController.java:79 | `(long) (page + 1) * size` computes `page + 1` in `int` before the cast | page `INT_MAX`, size 1 (offset `INT_MAX`, which `findAll` serves) gives `INT_MIN`, a negative end item | `((long) page + 1) * size`, capped at the total | not executed | CategoryStore.EndItemAsWritten, CategoryStore.EndItemOverflows | CategoryStore.EndItem, CategoryStore.ItemRangeSpec |
| src/main/java/br/com/alura/projeto/category/CategoryController.java:64 | `currentPage + 2` in `int` arithmetic | page `INT_MAX`, size 1 (offset `INT_MAX`, which `findAll` serves) gives end page `INT_MIN + 1`, below the start page | the last page link, at most the last page | not executed | CategoryStore.EndPageAsWritten, CategoryStore.EndPageOverflows | CategoryStore.EndPage, CategoryStore.PageLinksSpec |
