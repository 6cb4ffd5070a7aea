/** The record shapes of courses/models.py that the recommender reads, and the
    tables of the store it queries. Only the fields the recommender uses are kept. */
module Models {

  type CourseId = nat
  type MajorId = nat
  type MinorId = nat
  type StudentId = nat

  /** A row of the Course table: primary key, unique code, name and credit count. */
  datatype Course = Course(id: CourseId, code: string, name: string, credits: int)

  /** A Prerequisite row: `prerequisite` must be completed before `course`. */
  datatype PrerequisiteEdge = PrerequisiteEdge(course: CourseId, prerequisite: CourseId)

  datatype RequirementType = Required | Elective | Core | OptionGroup

  /** A DegreeRequirement row, tied to a major or a minor and optionally to one course. */
  datatype DegreeRequirement = DegreeRequirement(
    major: Option<MajorId>,
    minor: Option<MinorId>,
    course: Option<CourseId>,
    kind: RequirementType)

  datatype Grade = A | B | C | D | F | P | NP

  /** A CompletedCourse row; the grade plays no part in what counts as completed. */
  datatype CompletedCourse = CompletedCourse(student: StudentId, course: CourseId, semester: string, grade: Grade)

  datatype Student = Student(id: StudentId, major: Option<MajorId>)

  datatype Option<T> = None | Some(value: T)

  /** The tables the recommender's queries run against. The Prerequisite table is a
      set, so its (course, prerequisite_course) uniqueness holds by construction. */
  datatype Store = Store(
    courses: seq<Course>,
    prerequisites: set<PrerequisiteEdge>,
    requirements: seq<DegreeRequirement>,
    completions: seq<CompletedCourse>)

  /** The database constraints the recommender's behaviour depends on: primary keys and
      course codes unique, every prerequisite edge refers to existing courses, and a
      student completes a course at most once. */
  ghost predicate StoreValid(store: Store)
  {
    && (forall i, j :: 0 <= i < j < |store.courses| ==> store.courses[i].id != store.courses[j].id)
    && (forall i, j :: 0 <= i < j < |store.courses| ==> store.courses[i].code != store.courses[j].code)
    && (forall e :: e in store.prerequisites ==>
          (exists c :: c in store.courses && c.id == e.course) &&
          (exists c :: c in store.courses && c.id == e.prerequisite))
    && (forall i, j :: 0 <= i < j < |store.completions| ==>
          (store.completions[i].student, store.completions[i].course) !=
          (store.completions[j].student, store.completions[j].course))
  }
}
