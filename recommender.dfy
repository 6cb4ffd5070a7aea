/** The semester recommender of courses/recommender.py, with its database lookups
    read off the tables of a `Store` value. */
module Recommender {
  import opened Models
  import opened Sequences
  import opened CourseOrder
  import opened Greedy

  /** The ids of the courses the student has a CompletedCourse row for, whatever the grade. */
  function CompletedCourseIds(store: Store, student: StudentId): set<CourseId>
  {
    set row | row in store.completions && row.student == student :: row.course
  }

  /** The ids of the direct prerequisites of a course: one level of Prerequisite rows. */
  function PrerequisiteIds(store: Store, course: CourseId): set<CourseId>
  {
    set e | e in store.prerequisites && e.course == course :: e.prerequisite
  }

  /** Some single DegreeRequirement row ties the course to the major with type REQUIRED. */
  predicate RequiredFor(store: Store, major: MajorId, course: CourseId)
  {
    exists row :: row in store.requirements &&
      row.major == Some(major) && row.course == Some(course) && row.kind == Required
  }

  datatype Recommendation = Recommendation(recommended: seq<Course>, totalCredits: int, remainingToComplete: int)

  datatype CourseDetails = CourseDetails(course: Course, prerequisites: seq<Course>, prerequisitesMet: bool)

  /** A recommender for one student. Nothing in it changes once it is built. */
  datatype CourseRecommender = CourseRecommender(store: Store, student: Student, completedCourses: set<CourseId>)
  {
    /** Builds the recommender: the completed set is every course the student has a row for. */
    static function Create(student: Student, store: Store): (r: CourseRecommender)
      ensures r.student == student && r.store == store
      ensures forall id: CourseId :: id in r.completedCourses <==>
        exists row :: row in store.completions && row.student == student.id && row.course == id
    {
      CourseRecommender(store, student, CompletedCourseIds(store, student.id))
    }

    /** Every direct prerequisite of `c` is completed; prerequisites of prerequisites are not looked at. */
    function HasPrerequisites(c: Course): (r: bool)
      ensures r <==> forall e :: e in store.prerequisites && e.course == c.id ==> e.prerequisite in completedCourses
    {
      PrerequisiteIds(store, c.id) <= completedCourses
    }

    /** The major's REQUIRED courses, each once, in the order of the Course table; none
        without a major. */
    function RequiredCoursesForMajor(): (r: seq<Course>)
      ensures student.major.None? ==> r == []
      ensures forall c {:trigger c in r} :: c in r <==>
        student.major.Some? && c in store.courses && RequiredFor(store, student.major.value, c.id)
      ensures IsSubsequence(r, store.courses)
    {
      match student.major
      case None => []
      case Some(m) => Filter(store.courses, (c: Course) => RequiredFor(store, m, c.id))
    }

    /** The required courses not yet completed, in their original order. */
    function RemainingCourses(): (r: seq<Course>)
      ensures IsSubsequence(r, RequiredCoursesForMajor())
      ensures forall c {:trigger c in r} :: c in r <==> c in RequiredCoursesForMajor() && c.id !in completedCourses
    {
      Filter(RequiredCoursesForMajor(), (c: Course) => c.id !in completedCourses)
    }

    /** The remaining courses whose direct prerequisites are all completed, in order. */
    function EligibleCourses(): (r: seq<Course>)
      ensures IsSubsequence(r, RemainingCourses())
      ensures forall c {:trigger c in r} :: c in r <==> c in RemainingCourses() && HasPrerequisites(c)
    {
      Filter(RemainingCourses(), (c: Course) => HasPrerequisites(c))
    }

    /** What `get_recommendations` returns: the greedy pick over the eligible courses
        sorted by code, its credit total, and how many remaining courses it leaves. */
    function Planned(maxCredits: int): (r: Recommendation)
      ensures r.totalCredits == SumCredits(r.recommended)
      ensures maxCredits >= 0 ==> r.totalCredits <= maxCredits
      ensures student.major.None? ==> r == Recommendation([], 0, 0)
    {
      var chosen := Pack(SortByCode(EligibleCourses()), maxCredits);
      Recommendation(chosen.picked, chosen.total, |RemainingCourses()| - |chosen.picked|)
    }

    method GetRecommendations(maxCredits: int := 18) returns (r: Recommendation)
      ensures r == Planned(maxCredits)
    {
      var remaining := RemainingCourses();
      var eligible := EligibleCourses();
      eligible := SortByCode(eligible);
      var recommended: seq<Course> := [];
      var totalCredits := 0;
      for i := 0 to |eligible|
        invariant Selection(recommended, totalCredits) == Pack(eligible[..i], maxCredits)
      {
        var course := eligible[i];
        PackStep(eligible, maxCredits, i);
        if totalCredits + course.credits <= maxCredits {
          recommended := recommended + [course];
          totalCredits := totalCredits + course.credits;
        }
      }
      assert eligible[..|eligible|] == eligible;
      r := Recommendation(recommended, totalCredits, |remaining| - |recommended|);
    }

    /** The course, its direct prerequisite courses in code order, and whether they are met. */
    function GetCourseDetails(c: Course): (d: CourseDetails)
      ensures d.course == c && d.prerequisitesMet == HasPrerequisites(c)
      ensures forall x :: x in d.prerequisites <==>
        x in store.courses && PrerequisiteEdge(c.id, x.id) in store.prerequisites
      ensures SortedByCode(d.prerequisites)
      ensures StoreValid(store) ==> StrictlyByCode(d.prerequisites)
    {
      var ids := PrerequisiteIds(store, c.id);
      var rows := Filter(store.courses, (x: Course) => x.id in ids);
      SortMembers(rows);
      SortedRowsStrict(store, rows);
      CourseDetails(c, SortByCode(rows), HasPrerequisites(c))
    }
  }

  /** Course rows selected from a store with unique codes sort into strictly ascending code
      order, so each appears once. */
  lemma SortedRowsStrict(store: Store, rows: seq<Course>)
    requires IsSubsequence(rows, store.courses)
    ensures StoreValid(store) ==> StrictlyByCode(SortByCode(rows))
  {
    if StoreValid(store) {
      SubsequenceDistinct(rows, store.courses);
      SortStrict(rows);
    }
  }

  /** Every recommended course is taken, in order, from the sorted eligible list, so it is
      still required, not completed, and has its direct prerequisites met. */
  lemma RecommendedAreEligible(rec: CourseRecommender, cap: int)
    ensures IsSubsequence(rec.Planned(cap).recommended, SortByCode(rec.EligibleCourses()))
    ensures forall c :: c in rec.Planned(cap).recommended ==>
      c in rec.RequiredCoursesForMajor() && c.id !in rec.completedCourses && rec.HasPrerequisites(c)
  {
    var sorted := SortByCode(rec.EligibleCourses());
    SortMembers(rec.EligibleCourses());
    PackSubsequence(sorted, cap);
    SubsequenceMembers(Pack(sorted, cap).picked, sorted);
  }

  /** `remaining_to_complete` counts the remaining courses not recommended, and is never negative. */
  lemma RemainingCountNonNegative(rec: CourseRecommender, cap: int)
    ensures rec.Planned(cap).remainingToComplete ==
      |rec.RemainingCourses()| - |rec.Planned(cap).recommended| >= 0
  {
    var sorted := SortByCode(rec.EligibleCourses());
    SortMembers(rec.EligibleCourses());
    PackSubsequence(sorted, cap);
    SubsequenceMembers(Pack(sorted, cap).picked, sorted);
    SubsequenceMembers(rec.EligibleCourses(), rec.RemainingCourses());
  }

  /** With unique course codes the eligible list sorts into strictly ascending code order. */
  lemma SortedEligibleStrict(rec: CourseRecommender)
    requires StoreValid(rec.store)
    ensures StrictlyByCode(SortByCode(rec.EligibleCourses()))
  {
    SubsequenceDistinct(rec.RequiredCoursesForMajor(), rec.store.courses);
    SubsequenceDistinct(rec.RemainingCourses(), rec.RequiredCoursesForMajor());
    SubsequenceDistinct(rec.EligibleCourses(), rec.RemainingCourses());
    SortStrict(rec.EligibleCourses());
  }

  /** The recommendation lists courses in strictly ascending code order. */
  lemma RecommendedInCodeOrder(rec: CourseRecommender, cap: int)
    requires StoreValid(rec.store)
    ensures StrictlyByCode(rec.Planned(cap).recommended)
  {
    SortedEligibleStrict(rec);
    var sorted := SortByCode(rec.EligibleCourses());
    PackSubsequence(sorted, cap);
    SubsequenceStrict(Pack(sorted, cap).picked, sorted);
  }

  /** Each eligible course, at its place in code order, is recommended exactly when its
      credits fitted into the headroom the courses before it had left. */
  lemma RecommendedIffFitted(rec: CourseRecommender, cap: int, i: nat)
    requires StoreValid(rec.store)
    requires i < |SortByCode(rec.EligibleCourses())|
    ensures var sorted := SortByCode(rec.EligibleCourses());
      sorted[i] in rec.Planned(cap).recommended <==>
        Pack(sorted[..i], cap).total + sorted[i].credits <= cap
  {
    SortedEligibleStrict(rec);
    var sorted := SortByCode(rec.EligibleCourses());
    StrictDistinct(sorted);
    PackDecision(sorted, cap, i);
  }

  /** With non-negative credits no eligible course that was left out would still fit. */
  lemma NoLeftOutCourseFits(rec: CourseRecommender, cap: int)
    requires forall c :: c in rec.EligibleCourses() ==> c.credits >= 0
    ensures forall c :: c in rec.EligibleCourses() && c !in rec.Planned(cap).recommended ==>
      rec.Planned(cap).totalCredits + c.credits > cap
  {
    var sorted := SortByCode(rec.EligibleCourses());
    SortMembers(rec.EligibleCourses());
    assert NonNegativeCredits(sorted) by {
      forall i | 0 <= i < |sorted| ensures sorted[i].credits >= 0 {
        assert sorted[i] in sorted;
      }
    }
    NothingLeftOutFits(sorted, cap);
  }

  /** When the required list is some completed courses followed by uncompleted ones, the
      remaining list is exactly the uncompleted part. */
  lemma RemainingAfterCompleted(rec: CourseRecommender, done: seq<Course>, rest: seq<Course>)
    requires rec.RequiredCoursesForMajor() == done + rest
    requires forall c :: c in done ==> c.id in rec.completedCourses
    requires forall c :: c in rest ==> c.id !in rec.completedCourses
    ensures rec.RemainingCourses() == rest
  {
    var p := (c: Course) => c.id !in rec.completedCourses;
    FilterConcat(done, rest, p);
    FilterDropsAll(done, p);
    FilterKeepsAll(rest, p);
  }

  /** When the remaining list is some courses whose prerequisites are met followed by some
      whose prerequisites are not, the eligible list is exactly the first part. */
  lemma EligibleBeforeBlocked(rec: CourseRecommender, ready: seq<Course>, blocked: seq<Course>)
    requires rec.RemainingCourses() == ready + blocked
    requires forall c :: c in ready ==> rec.HasPrerequisites(c)
    requires forall c :: c in blocked ==> !rec.HasPrerequisites(c)
    ensures rec.EligibleCourses() == ready
  {
    var p := (c: Course) => rec.HasPrerequisites(c);
    FilterConcat(ready, blocked, p);
    FilterDropsAll(blocked, p);
    FilterKeepsAll(ready, p);
  }

  /** The details' `prerequisites_met` holds exactly when every listed prerequisite course is
      completed; this needs every prerequisite edge to point at an existing course. */
  lemma DetailsAgreeWithPrerequisiteList(rec: CourseRecommender, c: Course)
    requires StoreValid(rec.store)
    ensures rec.GetCourseDetails(c).prerequisitesMet <==>
      forall x :: x in rec.GetCourseDetails(c).prerequisites ==> x.id in rec.completedCourses
  {
    var d := rec.GetCourseDetails(c);
    if forall x :: x in d.prerequisites ==> x.id in rec.completedCourses {
      forall e | e in rec.store.prerequisites && e.course == c.id
        ensures e.prerequisite in rec.completedCourses
      {
        var x :| x in rec.store.courses && x.id == e.prerequisite;
        assert x in d.prerequisites;
      }
    }
  }
}
