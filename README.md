# Course recommender

A Dafny model of the semester recommender of the course-recommendation system
(`CourseRecommender` in `courses/recommender.py`). For one student it:

1. takes the courses tied to the student's major by a REQUIRED degree requirement;
2. drops the ones the student has already completed;
3. keeps those whose direct prerequisites are all completed;
4. sorts them by course code;
5. walks them once, accepting each course whose credits still fit under the cap and
   skipping, but not stopping at, each one that does not.

It also answers a detail query: a course, its direct prerequisite courses, and whether they
are met.

The database is a value, `Models.Store`, holding the four tables the recommender reads:
- Course rows;
- Prerequisite edges;
- DegreeRequirement rows;
- CompletedCourse rows.

Each ORM query is a function over those tables. The recommender object is never changed
after it is built, so it is the datatype `Recommender.CourseRecommender`. Its queries are
member functions, and its one imperative step is the member method `GetRecommendations`. That
method sorts the eligible list and runs the greedy loop, and it is proved equal to the
function `Planned`.

The model is split into modules:
- `Sequences`: selection in order, as a list comprehension builds it, and the sub-sequence
  relation.
- `CourseOrder`: Python's `<` on strings (`CodeLess`) and a stable sort by code
  (`SortByCode`), with the facts that make its result unique when codes are unique.
- `Greedy`: the specification of the greedy loop (`Pack`) and its properties.
- `Recommender`: the recommender itself and the properties of its result.
- `Seed`: the seeded CSC catalogue, and the test student for whom the recommendation is
  derived.

The uniqueness constraints of the schema are gathered in `Models.StoreValid`, and only the
properties that need them require it:
- course codes are unique;
- primary keys are unique;
- prerequisite edges point at existing courses;
- a student completes a course at most once.

Where the source's own comments and its code differ, the model follows the code:
- The comment at `courses/recommender.py:81` says courses are picked "until we hit credit
  limit", but the loop at lines 85-88 does not stop at the first course that does not fit.
  It skips that course and goes on with the next one.
- The docstring at `courses/recommender.py:60-68` promises a `reason` key, but the return at
  lines 90-94 holds `recommended`, `total_credits` and `remaining_to_complete` only.

## Model

| member | source | states |
|---|---|---|
| Recommender.CourseRecommender.Create | courses/recommender.py:14-25 | the completed set holds exactly the course ids of the student's CompletedCourse rows, whatever the grade |
| Recommender.CourseRecommender.HasPrerequisites | courses/recommender.py:27-38 | true exactly when every Prerequisite row of the course names a completed course; only direct prerequisites are consulted |
| Recommender.CourseRecommender.RequiredCoursesForMajor | courses/recommender.py:40-52 | empty without a major; otherwise holds exactly the Course rows that one REQUIRED requirement row ties to the major, in table order, so each once as the table holds each row once |
| Recommender.CourseRecommender.RemainingCourses | courses/recommender.py:54-57 | a sub-sequence of the required courses holding exactly those whose id is not completed, so no completed course remains |
| Recommender.CourseRecommender.EligibleCourses | courses/recommender.py:72-76 | a sub-sequence of the remaining courses holding exactly those whose direct prerequisites are met |
| Recommender.CourseRecommender.Planned | courses/recommender.py:59-94 | the total equals the sum of the recommended credits and, for a non-negative cap, stays within the cap; without a major the result is empty, 0 and 0 |
| Recommender.CourseRecommender.GetRecommendations | courses/recommender.py:59-94 | the sort and the accumulating loop return exactly the greedy selection over the code-sorted eligible courses, its total and the remaining count (loop invariant: the state equals the selection over the prefix seen) |
| Recommender.CourseRecommender.GetCourseDetails | courses/recommender.py:96-105 | lists exactly the Course rows that are direct prerequisites of the course, sorted by Python's code-point order on course codes (standing in for the database's `ORDER BY course_code`), each once (strictly ascending) when codes are unique, and reports met exactly as the eligibility test does |
| Recommender.RecommendedAreEligible | courses/recommender.py:73-88 | the recommendation is a sub-sequence of the sorted eligible list; every recommended course is required, not completed, and has its prerequisites met |
| Recommender.RemainingCountNonNegative | courses/recommender.py:70-93 | remaining_to_complete is the remaining count minus the recommended count, and is never negative |
| Recommender.SortedEligibleStrict | courses/recommender.py:78-79 | with unique codes the sorted eligible list is in strictly ascending code order |
| Recommender.RecommendedInCodeOrder | courses/recommender.py:78-88 | with unique codes the recommendation is in strictly ascending code order |
| Recommender.RecommendedIffFitted | courses/recommender.py:85-88 | an eligible course is recommended exactly when its credits fitted the headroom left by the courses sorted before it |
| Recommender.NoLeftOutCourseFits | courses/recommender.py:85-88 | with non-negative credits no eligible course left out would fit into the final headroom |
| Recommender.DetailsAgreeWithPrerequisiteList | courses/recommender.py:96-105 | prerequisites_met holds exactly when every listed prerequisite course is completed |
| Recommender.SortedRowsStrict | courses/recommender.py:98-103 | with unique codes, Course rows selected from the table sort into strictly ascending code order, so none repeats |
| Recommender.RemainingAfterCompleted | courses/recommender.py:54-57 | completed courses followed by uncompleted ones leave exactly the uncompleted ones |
| Recommender.EligibleBeforeBlocked | courses/recommender.py:72-76 | courses with prerequisites met followed by blocked ones leave exactly the first ones eligible |
| Greedy.Pack | courses/recommender.py:82-88 | the running total is the sum of the accepted credits, and a non-empty selection stays within the cap |
| Greedy.PackSubsequence | courses/recommender.py:85-87 | the accepted courses keep the order in which they were considered |
| Greedy.PackPrefix | courses/recommender.py:85-88 | considering more courses never removes or reorders what was already accepted |
| Greedy.PackLater | courses/recommender.py:85-88 | everything accepted after the first `j` courses comes from the courses after them |
| Greedy.PackTotalGrows | courses/recommender.py:85-88 | with non-negative credits the running total never drops |
| Greedy.AcceptedWhenFits | courses/recommender.py:86-88 | a course that fits the headroom at its turn is accepted |
| Greedy.LeftOut | courses/recommender.py:86 | a course occurring once that does not fit at its turn never appears in the selection |
| Greedy.PackDecision | courses/recommender.py:85-88 | among distinct courses, one is accepted exactly when it fits the headroom at its turn |
| Greedy.NothingLeftOutFits | courses/recommender.py:85-88 | with non-negative credits every course left out exceeds the final headroom |
| CourseOrder.CodeLessIrreflexive | courses/recommender.py:79 | no code is smaller than itself |
| CourseOrder.CodeLessTransitive | courses/recommender.py:79 | the string order on codes is transitive |
| CourseOrder.CodeLessTotal | courses/recommender.py:79 | of two different codes one is smaller |
| CourseOrder.Insert | courses/recommender.py:79 | inserting into a code-sorted list keeps it sorted and adds exactly the one course |
| CourseOrder.SortByCode | courses/recommender.py:79 | the result is a permutation of the input in code order |
| CourseOrder.SortMembers | courses/recommender.py:79 | sorting keeps the length and exactly the same courses |
| CourseOrder.InsertStrict | courses/recommender.py:79 | inserting a course with a new code into a strictly ordered list keeps it strictly ordered |
| CourseOrder.SortStrict | courses/recommender.py:79 | with distinct codes the sorted list is strictly ascending |
| CourseOrder.StrictOrderUnique | courses/recommender.py:79 | two strictly code-ordered permutations of the same courses are equal, so the sorted result does not depend on the input order |
| CourseOrder.SubsequenceStrict | courses/recommender.py:85-88 | dropping courses from a strictly ordered list keeps it strictly ordered |
| CourseOrder.SubsequenceDistinct | courses/recommender.py:54-76 | dropping courses keeps codes distinct |
| Sequences.Filter | courses/recommender.py:57 | the comprehension keeps exactly the elements satisfying the condition, in their original order |
| Sequences.SubsequenceMembers | courses/recommender.py:73-76 | a sub-sequence is no longer than its source and draws only from it |
| Sequences.FilterConcat | courses/recommender.py:57 | selecting from a concatenation selects from each part |
| Sequences.FilterKeepsAll | courses/recommender.py:57 | when every element qualifies, the comprehension returns the list unchanged |
| Sequences.FilterDropsAll | courses/recommender.py:57 | when no element qualifies, the comprehension is empty |
| Seed.TestStudentCompleted | test_recommender.py:29-41 | the test student's completed set is {CSC1980, CSC2280, CSC2290} |
| Seed.SeededRequired | populate_db.py:49-57 | every seeded course is REQUIRED for CSC, so the required list is the whole catalogue |
| Seed.SeededCompletion | test_recommender.py:29-41 | the first three seeded courses are completed, the later six are not |
| Seed.SeededRemaining | courses/recommender.py:54-57 | six courses remain for the test student, from CSC3280 on |
| Seed.SeededPrerequisitesMet | populate_db.py:60-77 | CSC3280 and CSC3310 have their prerequisites met; CSC3380, CSC3400, CSC4410 and CSC4899 do not |
| Seed.SeededEligible | courses/recommender.py:72-76 | the test student's eligible courses are CSC3280 and CSC3310 |
| Seed.SeededEligibleSorted | courses/recommender.py:78-79 | CSC3280 sorts before CSC3310 |
| Seed.SeededPacking | courses/recommender.py:85-88 | both four-credit courses fit under 18; under 4 only the first does |
| Seed.TestStudentRecommendation | test_recommender.py:49-52 | cap 18, as the script runs it, recommends [CSC3280, CSC3310] with 8 credits and 4 left; an added second case, cap 4, recommends only [CSC3280] with 4 credits and 5 left |
| Seed.DirectPrerequisitesOnly | courses/recommender.py:35-38 | for a recommender built over the seeded tables with CSC2290 as the student's only CompletedCourse row, CSC3280's prerequisites count as met although CSC2280, a prerequisite of CSC2290, is not completed |

## Left out

- The Django ORM is replaced by tables in a `Store` value. Joins and `.distinct()` are stated as functions over those tables; where the database orders rows, the model uses table order or Python's code-point order, as the lines below say. Reading the database at several moments, which another writer could change in between, is not modelled.
- Recommender.CourseRecommender.RequiredCoursesForMajor returns the courses in table order, not in the Course ordering by code (`courses/models.py:15-16`). That order is never observable: `get_recommendations` re-sorts the eligible courses and reports only the number of remaining ones. With unique codes, `CourseOrder.StrictOrderUnique` shows the sort's result does not depend on the input order.
- Recommender.CourseRecommender.GetCourseDetails orders the prerequisites by Python's code-point order on codes (`SortByCode`), not by the database's collation for `ORDER BY course_code` (`courses/models.py:15-16`). The MySQL default collation is case-insensitive, so the two differ on mixed-case codes: the database lists "csc200" before "MATH101", the model the other way round. They agree on upper-case alphanumeric codes such as the seeded ones. Ties between equal codes, which the schema rules out, are broken by table order.
- `eligible_courses.sort(...)` sorts a local list in place. It is modelled as the value `SortByCode`, a stable sort, assigned back to the local. No other reference sees that list, so no aliasing is lost.
- The dictionaries returned by the two public methods are the datatypes `Recommendation` and `CourseDetails`.
- Only the record fields the recommender reads are kept. Descriptions, departments, dates, minors of students and the Schedule tables are not part of this model.
- `courses/models.py` contributes only record shapes and uniqueness constraints (`Models.StoreValid`). It has no behaviour.
- `courses/admin.py` (admin registration) and `create_db.py` (database creation) are not part of this model.
- `populate_db.py` and `test_recommender.py` are used only as the data of `Seed`. Their `get_or_create` calls and printing are I/O.
- Python integers are unbounded and so are Dafny's, so no width is modelled. Credits may be negative in the schema. The properties that need non-negative credits say so.
- The seeded store is not proved to satisfy `StoreValid`. The scenario lemmas do not need it.
