/**
 The records of the academy's data model that the progress engine reads and
 writes: module configuration, per-user module and lesson progress,
 certificates, final-test submissions and course assignments. Identifiers are
 natural numbers; timestamps are seconds, supplied by the caller.
 */
module Records {
  import opened Common

  /** The three values of `ModuleProgress.status`. */
  datatype Status = NotStarted | InProgress | Completed

  /** Position of a status on the path not_started -> in_progress -> completed. */
  function Rank(s: Status): (k: nat)
    ensures k <= 2
    ensures s == NotStarted <==> k == 0
    ensures s == Completed <==> k == 2
  {
    match s
    case NotStarted => 0
    case InProgress => 1
    case Completed => 2
  }

  /** The fields of `Module` that the engine consults. */
  datatype ModuleInfo = ModuleInfo(
    id: nat,
    courseId: nat,
    slug: string,
    order: nat,
    minScoreToPass: nat,
    isMandatory: bool)

  /** A module created with only its identity, slug and order given: the model defaults apply. */
  function NewModule(id: nat, courseId: nat, slug: string, order: nat): (m: ModuleInfo)
    ensures m.id == id && m.courseId == courseId && m.slug == slug && m.order == order
    ensures m.minScoreToPass == 80 && m.isMandatory
  {
    ModuleInfo(id, courseId, slug, order, 80, true)
  }

  /** The slug of the module whose passed quiz earns the certificate. */
  const FinalAssessmentSlug: string := "new-driver-induction-final-assessment"

  /** One row of `ModuleProgress`, keyed elsewhere by (user, module). */
  datatype ModuleProgress = ModuleProgress(
    status: Status,
    score: nat,
    completedAt: Option<nat>,
    lastAttemptAt: Option<nat>)

  /** A freshly created `ModuleProgress` row: every field at its declared default. */
  function DefaultProgress(): (p: ModuleProgress)
    ensures p.status == NotStarted && p.score == 0
    ensures p.completedAt.None? && p.lastAttemptAt.None?
    ensures forall m: ModuleInfo :: m.minScoreToPass > 0 ==> !Passed(p, m)
  {
    ModuleProgress(NotStarted, 0, None, None)
  }

  /** The `passed` property: the stored score reaches the module's pass mark. */
  predicate Passed(p: ModuleProgress, m: ModuleInfo) {
    p.score >= m.minScoreToPass
  }

  /** One row of `LessonProgress`, keyed elsewhere by (user, lesson). */
  datatype LessonProgress = LessonProgress(completed: bool, completedAt: Option<nat>)

  function DefaultLessonProgress(): (p: LessonProgress)
    ensures !p.completed && p.completedAt.None?
  {
    LessonProgress(false, None)
  }

  /** One row of `Certificate`, keyed elsewhere by (user, module). */
  datatype Certificate = Certificate(
    user: nat,
    course: nat,
    moduleId: nat,
    score: nat,
    issuedAt: nat,
    number: string)

  /** One element of the answer list stored with a final-test submission. */
  datatype AnswerSnapshot = AnswerSnapshot(
    questionId: int,
    questionText: string,
    selectedChoiceId: Option<int>,
    selectedChoiceText: Option<string>,
    correctChoiceText: Option<string>,
    isCorrect: bool,
    explanation: string)

  /** One row of `FinalTestSubmission`. */
  datatype Submission = Submission(
    user: nat,
    moduleId: nat,
    submittedAt: nat,
    answers: seq<AnswerSnapshot>,
    reviewed: bool,
    isPassed: bool,
    reviewedBy: Option<nat>,
    reviewedAt: Option<nat>)

  /** A submission as first stored: not yet reviewed, not passed, no reviewer. */
  function NewSubmission(user: nat, moduleId: nat, now: nat, answers: seq<AnswerSnapshot>): (s: Submission)
    ensures s.user == user && s.moduleId == moduleId && s.submittedAt == now && s.answers == answers
    ensures !s.reviewed && !s.isPassed
    ensures s.reviewedBy.None? && s.reviewedAt.None?
  {
    Submission(user, moduleId, now, answers, false, false, None, None)
  }

  /** A `Course` as the dashboard filters it: its id and whether it is active. */
  datatype CourseInfo = CourseInfo(id: nat, isActive: bool)

  /** A `CourseAssignment` grants a course to a user, to a group, or (as stored) to neither. */
  datatype CourseAssignment = CourseAssignment(user: Option<nat>, group: Option<nat>, course: nat)

  datatype Owner = UserOwner(user: nat) | GroupOwner(group: nat)

  /** `self.user or self.group`: the user wins when both are set. */
  function AssignmentOwner(a: CourseAssignment): (o: Option<Owner>)
    ensures a.user.Some? ==> o == Some(UserOwner(a.user.value))
    ensures a.user.None? && a.group.Some? ==> o == Some(GroupOwner(a.group.value))
    ensures o.None? <==> a.user.None? && a.group.None?
  {
    if a.user.Some? then Some(UserOwner(a.user.value))
    else if a.group.Some? then Some(GroupOwner(a.group.value))
    else None
  }

  /**
   The course ids assigned to a learner, directly or through one of the
   learner's groups.
   */
  function AssignedCourses(assignments: seq<CourseAssignment>, user: nat, groups: set<nat>): (ids: set<nat>)
    ensures forall c :: c in ids <==>
      exists i :: 0 <= i < |assignments| && assignments[i].course == c &&
        (assignments[i].user == Some(user) ||
         (assignments[i].group.Some? && assignments[i].group.value in groups))
  {
    set i | 0 <= i < |assignments| &&
      (assignments[i].user == Some(user) ||
       (assignments[i].group.Some? && assignments[i].group.value in groups))
      :: assignments[i].course
  }

  /**
   The course ids the dashboard lists: the assigned courses that are active.
   A course row that is inactive is never listed, however it is assigned.
   */
  function DashboardCourses(assignments: seq<CourseAssignment>, user: nat, groups: set<nat>,
                            courses: seq<CourseInfo>): (ids: set<nat>)
    ensures forall c :: c in ids <==>
      c in AssignedCourses(assignments, user, groups) &&
      exists j :: 0 <= j < |courses| && courses[j].id == c && courses[j].isActive
  {
    var granted := AssignedCourses(assignments, user, groups);
    set j | 0 <= j < |courses| && courses[j].isActive && courses[j].id in granted :: courses[j].id
  }
}
