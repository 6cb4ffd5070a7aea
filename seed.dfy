/** The catalogue populate_db.py seeds (the CSC major, its nine REQUIRED courses and seven
    prerequisite edges) and the student test_recommender.py runs the recommender for. */
module Seed {
  import opened Models
  import opened Sequences
  import opened CourseOrder
  import opened Greedy
  import opened Recommender

  const CscMajor: MajorId := 1

  const Csc1980 := Course(1, "CSC1980", "Exploring Computer Science", 1)
  const Csc2280 := Course(2, "CSC2280", "Introduction to Computer Science", 4)
  const Csc2290 := Course(3, "CSC2290", "Object-Oriented Programming", 4)
  const Csc3280 := Course(4, "CSC3280", "Data Structures", 4)
  const Csc3310 := Course(5, "CSC3310", "Computer Organization and Architecture", 4)
  const Csc3380 := Course(6, "CSC3380", "Algorithms", 4)
  const Csc3400 := Course(7, "CSC3400", "Software Engineering", 4)
  const Csc4410 := Course(8, "CSC4410", "Operating Systems & Concurrency", 4)
  const Csc4899 := Course(9, "CSC4899", "Senior Project", 4)

  function Catalogue(): seq<Course>
  {
    [Csc1980, Csc2280, Csc2290, Csc3280, Csc3310, Csc3380, Csc3400, Csc4410, Csc4899]
  }

  function PrerequisiteEdges(): set<PrerequisiteEdge>
  {
    { PrerequisiteEdge(Csc2290.id, Csc2280.id),
      PrerequisiteEdge(Csc3280.id, Csc2290.id),
      PrerequisiteEdge(Csc3310.id, Csc2290.id),
      PrerequisiteEdge(Csc3380.id, Csc3280.id),
      PrerequisiteEdge(Csc3400.id, Csc3280.id),
      PrerequisiteEdge(Csc4410.id, Csc3280.id),
      PrerequisiteEdge(Csc4899.id, Csc3400.id) }
  }

  function Required(c: Course): DegreeRequirement
  {
    DegreeRequirement(Some(CscMajor), None, Some(c.id), RequirementType.Required)
  }

  const TestStudent := Student(1, Some(CscMajor))

  function Completed(c: Course): CompletedCourse
  {
    CompletedCourse(TestStudent.id, c.id, "Fall 2025", A)
  }

  /** The seeded tables with the test student's three completed courses. */
  function SeededStore(): Store
  {
    Store(
      Catalogue(),
      PrerequisiteEdges(),
      seq(|Catalogue()|, i requires 0 <= i < |Catalogue()| => Required(Catalogue()[i])),
      [Completed(Csc1980), Completed(Csc2280), Completed(Csc2290)])
  }

  /** The recommender test_recommender.py builds for the test student. */
  function TestRecommender(): CourseRecommender
  {
    CourseRecommender.Create(TestStudent, SeededStore())
  }

  /** The test student's CompletedCourse rows give the completed set {CSC1980, CSC2280, CSC2290}. */
  lemma TestStudentCompleted()
    ensures TestRecommender().completedCourses == {Csc1980.id, Csc2280.id, Csc2290.id}
  {
    var rows := SeededStore().completions;
    assert Completed(Csc1980) in rows && Completed(Csc2280) in rows && Completed(Csc2290) in rows;
  }

  /** Every seeded course is REQUIRED for the CSC major, so the query returns the whole catalogue. */
  lemma SeededRequired()
    ensures TestRecommender().RequiredCoursesForMajor() == Catalogue()
  {
    var store := SeededStore();
    var cat := Catalogue();
    forall x | x in cat ensures RequiredFor(store, CscMajor, x.id) {
      var i :| 0 <= i < |cat| && cat[i] == x;
      assert store.requirements[i] == Required(x);
    }
    FilterKeepsAll(cat, (c: Course) => RequiredFor(store, CscMajor, c.id));
  }

  /** The courses from CSC3280 on: the ones the test student has not completed. */
  function Later(): seq<Course>
  {
    [Csc3280, Csc3310, Csc3380, Csc3400, Csc4410, Csc4899]
  }

  lemma CatalogueSplits()
    ensures Catalogue() == [Csc1980, Csc2280, Csc2290] + Later()
    ensures Later() == [Csc3280, Csc3310] + [Csc3380, Csc3400, Csc4410, Csc4899]
  {
  }

  /** CSC1980, CSC2280 and CSC2290 are completed, the later six are not. */
  lemma SeededCompletion()
    ensures forall c :: c in [Csc1980, Csc2280, Csc2290] ==> c.id in TestRecommender().completedCourses
    ensures forall c :: c in Later() ==> c.id !in TestRecommender().completedCourses
  {
    TestStudentCompleted();
  }

  /** The three completed courses drop out; the six from CSC3280 on remain. */
  lemma SeededRemaining()
    ensures TestRecommender().RemainingCourses() == Later()
  {
    SeededCompletion();
    SeededRequired();
    CatalogueSplits();
    RemainingAfterCompleted(TestRecommender(), [Csc1980, Csc2280, Csc2290], Later());
  }

  /** CSC3280 and CSC3310 need only CSC2290, which the test student has completed;
      CSC3380, CSC3400 and CSC4410 need CSC3280, and CSC4899 needs CSC3400. */
  lemma SeededPrerequisitesMet()
    ensures forall c :: c in [Csc3280, Csc3310] ==> TestRecommender().HasPrerequisites(c)
    ensures forall c :: c in [Csc3380, Csc3400, Csc4410, Csc4899] ==> !TestRecommender().HasPrerequisites(c)
  {
    var store := SeededStore();
    TestStudentCompleted();
    assert PrerequisiteIds(store, Csc3280.id) == {Csc2290.id};
    assert PrerequisiteIds(store, Csc3310.id) == {Csc2290.id};
    assert PrerequisiteEdge(Csc3380.id, Csc3280.id) in store.prerequisites;
    assert PrerequisiteEdge(Csc3400.id, Csc3280.id) in store.prerequisites;
    assert PrerequisiteEdge(Csc4410.id, Csc3280.id) in store.prerequisites;
    assert PrerequisiteEdge(Csc4899.id, Csc3400.id) in store.prerequisites;
  }

  /** Of the remaining courses only CSC3280 and CSC3310 are eligible. */
  lemma SeededEligible()
    ensures TestRecommender().EligibleCourses() == [Csc3280, Csc3310]
  {
    SeededRemaining();
    CatalogueSplits();
    SeededPrerequisitesMet();
    EligibleBeforeBlocked(TestRecommender(), [Csc3280, Csc3310], [Csc3380, Csc3400, Csc4410, Csc4899]);
  }

  /** CSC3280 sorts before CSC3310, so the eligible list is already in code order. */
  lemma SeededEligibleSorted()
    ensures SortByCode([Csc3280, Csc3310]) == [Csc3280, Csc3310]
  {
    var e := [Csc3280, Csc3310];
    assert CodeLess(Csc3280.code, Csc3310.code);
    assert StrictlyByCode(e);
    StrictDistinct(e);
    SortStrict(e);
    StrictOrderUnique(SortByCode(e), e);
  }

  /** The greedy pick over two courses, one at a time. */
  lemma PackPair(a: Course, b: Course, cap: int)
    ensures var first := if a.credits <= cap then Selection([a], a.credits) else Selection([], 0);
      Pack([a, b], cap) ==
        if first.total + b.credits <= cap then Selection(first.picked + [b], first.total + b.credits)
        else first
  {
    var e := [a, b];
    PackStep(e, cap, 0);
    PackStep(e, cap, 1);
    assert e[..0] == [] && e[..2] == e;
  }

  /** Both four-credit courses fit under 18; under 4 only the first does. */
  lemma SeededPacking()
    ensures Pack([Csc3280, Csc3310], 18) == Selection([Csc3280, Csc3310], 8)
    ensures Pack([Csc3280, Csc3310], 4) == Selection([Csc3280], 4)
  {
    PackPair(Csc3280, Csc3310, 18);
    PackPair(Csc3280, Csc3310, 4);
  }

  /** The test student, with CSC1980, CSC2280 and CSC2290 completed, is recommended
      CSC3280 and CSC3310 under the default cap of 18: 8 credits, 4 courses still to do.
      Under a cap of 4 only CSC3280, the first eligible course by code, is recommended. */
  lemma TestStudentRecommendation()
    ensures TestRecommender().Planned(18) == Recommendation([Csc3280, Csc3310], 8, 4)
    ensures TestRecommender().Planned(4) == Recommendation([Csc3280], 4, 5)
  {
    SeededRemaining();
    SeededEligible();
    SeededEligibleSorted();
    SeededPacking();
  }

  /** The seeded tables for a student whose only CompletedCourse row is CSC2290. */
  function Csc2290OnlyStore(): Store
  {
    SeededStore().(completions := [Completed(Csc2290)])
  }

  /** Only direct prerequisites are checked: a student who has completed CSC2290 but not its
      own prerequisite CSC2280 still has the prerequisites of CSC3280 met. */
  lemma DirectPrerequisitesOnly()
    ensures var rec := CourseRecommender.Create(TestStudent, Csc2290OnlyStore());
      rec.HasPrerequisites(Csc3280) && !rec.HasPrerequisites(Csc2290)
  {
    var store := Csc2290OnlyStore();
    var rec := CourseRecommender.Create(TestStudent, store);
    assert Completed(Csc2290) in store.completions;
    assert rec.completedCourses == {Csc2290.id};
    assert PrerequisiteIds(store, Csc3280.id) == {Csc2290.id};
    assert PrerequisiteEdge(Csc2290.id, Csc2280.id) in store.prerequisites;
  }
}
