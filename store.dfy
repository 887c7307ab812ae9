/**
 The request handlers that change a learner's records, over a store of the
 progress, lesson, certificate and submission tables. Each handler loads the
 rows it needs (creating missing progress rows with the defaults the source
 passes to get-or-create), updates their fields step by step and saves them.
 */
module Store {
  import opened Common
  import opened Records
  import opened Progress
  import opened Access
  import opened Scoring
  import opened Certificates

  /** The fields of `Lesson` the engine consults. */
  datatype LessonInfo = LessonInfo(id: nat, moduleId: nat)

  /** Why a handler stopped without doing its work. */
  datatype ViewError =
    | NotFound
    | Locked
    | NoQuestions
    | UnreadableChoice(questionId: int)

  type LessonTable = map<(nat, nat), LessonProgress>

  /** The lessons of module `moduleId`, in catalogue order. */
  function LessonsOf(catalog: seq<LessonInfo>, moduleId: nat): (ls: seq<nat>)
    ensures |ls| <= |catalog|
    ensures forall x :: x in ls <==> exists i :: 0 <= i < |catalog| && catalog[i].moduleId == moduleId && catalog[i].id == x
    ensures (forall i, j :: 0 <= i < j < |catalog| ==> catalog[i].id != catalog[j].id) ==>
      forall i, j :: 0 <= i < j < |ls| ==> ls[i] != ls[j]
  {
    if |catalog| == 0 then []
    else
      var init := LessonsOf(catalog[..|catalog| - 1], moduleId);
      var last := catalog[|catalog| - 1];
      assert forall i :: 0 <= i < |catalog| - 1 ==> catalog[..|catalog| - 1][i] == catalog[i];
      assert (forall i, j :: 0 <= i < j < |catalog| ==> catalog[i].id != catalog[j].id) ==> last.id !in init;
      if last.moduleId == moduleId then init + [last.id] else init
  }

  /** The first lesson with id `id`, if any. */
  function FindLesson(catalog: seq<LessonInfo>, id: nat): (r: Option<LessonInfo>)
    ensures r.Some? ==> r.value.id == id && r.value in catalog
    ensures r.None? ==> forall i :: 0 <= i < |catalog| ==> catalog[i].id != id
  {
    if |catalog| == 0 then None
    else if catalog[0].id == id then Some(catalog[0])
    else
      var r := FindLesson(catalog[1..], id);
      assert forall i :: 1 <= i < |catalog| ==> catalog[i] == catalog[1..][i - 1];
      r
  }

  predicate LessonDone(table: LessonTable, user: nat, lesson: nat) {
    (user, lesson) in table && table[(user, lesson)].completed
  }

  /** How many of `lessons` the learner has completed. */
  function CompletedLessonCount(table: LessonTable, user: nat, lessons: seq<nat>): (n: nat)
    ensures n <= |lessons|
  {
    if |lessons| == 0 then 0
    else CompletedLessonCount(table, user, lessons[..|lessons| - 1]) +
         (if LessonDone(table, user, lessons[|lessons| - 1]) then 1 else 0)
  }

  lemma {:induction false} CompletedLessonCountExtremes(table: LessonTable, user: nat, lessons: seq<nat>)
    ensures CompletedLessonCount(table, user, lessons) == |lessons| <==>
            forall i :: 0 <= i < |lessons| ==> LessonDone(table, user, lessons[i])
    ensures CompletedLessonCount(table, user, lessons) == 0 <==>
            forall i :: 0 <= i < |lessons| ==> !LessonDone(table, user, lessons[i])
    decreases |lessons|
  {
    if |lessons| > 0 {
      var init := lessons[..|lessons| - 1];
      CompletedLessonCountExtremes(table, user, init);
      assert forall i :: 0 <= i < |init| ==> init[i] == lessons[i];
    }
  }

  /**
   Once every lesson of a module with lessons is completed, recomputation marks
   the module completed with score 100; with none completed it is not started.
   */
  lemma LessonCompletionDecidesModule(table: LessonTable, user: nat, lessons: seq<nat>, p: ModuleProgress, now: nat)
    requires |lessons| > 0
    ensures (forall i :: 0 <= i < |lessons| ==> LessonDone(table, user, lessons[i])) ==>
      var r := RecomputeFromLessons(p, |lessons|, CompletedLessonCount(table, user, lessons), now);
      r.status == Completed && r.score == 100
    ensures (forall i :: 0 <= i < |lessons| ==> !LessonDone(table, user, lessons[i])) ==>
      var r := RecomputeFromLessons(p, |lessons|, CompletedLessonCount(table, user, lessons), now);
      r.status == NotStarted && r.score == 0
  {
    CompletedLessonCountExtremes(table, user, lessons);
    AllOrNoLessons(p, |lessons|, now);
  }

  /** The stored row for `key`, or the row get-or-create would make from `defaults`. */
  function RowOr(table: ProgressTable, key: (nat, nat), defaults: ModuleProgress): (p: ModuleProgress)
    ensures key in table ==> p == table[key]
    ensures key !in table ==> p == defaults
  {
    if key in table then table[key] else defaults
  }

  /** The defaults `FinalTestSubmission.save` passes to get-or-create. */
  function SaveDefaults(): (p: ModuleProgress)
    ensures p.status == Completed && p.score == 0 && p.completedAt.None? && p.lastAttemptAt.None?
  {
    DefaultProgress().(status := Completed)
  }

  /** The defaults the manager's pass passes to get-or-create. */
  function MarkPassDefaults(): (p: ModuleProgress)
    ensures p.status == Completed && p.score == 100 && p.completedAt.None? && p.lastAttemptAt.None?
  {
    DefaultProgress().(status := Completed, score := 100)
  }

  datatype ModuleView = ModuleView(lessonPercent: nat, progress: ModuleProgress)

  datatype QuizResult = QuizResult(marked: seq<MarkedAnswer>, scorePercent: nat, passed: bool, progress: ModuleProgress)

  datatype FinalResult = FinalResult(submissionId: nat, scorePercent: nat)

  class ProgressStore {
    var moduleProgress: ProgressTable
    var lessonProgress: LessonTable
    var certificates: CertificateTable
    var submissions: map<nat, Submission>
    var nextSubmissionId: nat

    /** Certificates carry their own numbers; submission ids are below the next one to hand out. */
    ghost predicate Valid()
      reads this
    {
      WellFormed(certificates) && forall id :: id in submissions ==> id < nextSubmissionId
    }

    constructor ()
      ensures Valid()
      ensures moduleProgress == map[] && lessonProgress == map[] && certificates == map[]
      ensures submissions == map[] && nextSubmissionId == 0
    {
      moduleProgress := map[];
      lessonProgress := map[];
      certificates := map[];
      submissions := map[];
      nextSubmissionId := 0;
    }

    /** Get-or-create of a `ModuleProgress` row: an existing row is returned as it is. */
    method GetModuleProgress(user: nat, moduleId: nat, defaults: ModuleProgress) returns (p: ModuleProgress)
      modifies this`moduleProgress
      ensures p == RowOr(old(moduleProgress), (user, moduleId), defaults)
      ensures moduleProgress == old(moduleProgress)[(user, moduleId) := p]
    {
      if (user, moduleId) in moduleProgress {
        p := moduleProgress[(user, moduleId)];
      } else {
        p := defaults;
        moduleProgress := moduleProgress[(user, moduleId) := p];
      }
    }

    /**
     Recomputes the learner's row for a module from lesson completion, `lessons`
     being the module's lessons.
     */
    method UpdateModuleProgressFromLessons(user: nat, moduleId: nat, lessons: seq<nat>, now: nat)
      returns (p: ModuleProgress)
      requires Valid()
      modifies this`moduleProgress
      ensures Valid()
      ensures p == RecomputeFromLessons(RowOr(old(moduleProgress), (user, moduleId), DefaultProgress()),
                                        |lessons|, CompletedLessonCount(lessonProgress, user, lessons), now)
      ensures moduleProgress == old(moduleProgress)[(user, moduleId) := p]
      ensures lessonProgress == old(lessonProgress) && certificates == old(certificates)
      ensures submissions == old(submissions) && nextSubmissionId == old(nextSubmissionId)
    {
      p := GetModuleProgress(user, moduleId, DefaultProgress());
      var total := |lessons|;
      if total == 0 {
        p := p.(score := 100);
        p := p.(status := Completed);
        if p.completedAt.None? {
          p := p.(completedAt := Some(now));
        }
      } else {
        var completedCount := CompletedLessonCount(lessonProgress, user, lessons);
        var percent := Percent(completedCount, total);
        p := p.(score := percent);
        if percent == 0 {
          p := p.(status := NotStarted, completedAt := None);
        } else if percent < 100 {
          p := p.(status := InProgress, completedAt := None);
        } else {
          p := p.(status := Completed);
          if p.completedAt.None? {
            p := p.(completedAt := Some(now));
          }
        }
      }
      p := p.(lastAttemptAt := Some(now));
      moduleProgress := moduleProgress[(user, moduleId) := p];
    }

    /**
     Marks a lesson completed for the learner (the first completion time is kept)
     and recomputes the progress of the lesson's module.
     */
    method CompleteLesson(user: nat, lessonId: nat, catalog: seq<LessonInfo>, now: nat)
      returns (r: Result<ModuleProgress, ViewError>)
      requires Valid()
      modifies this`lessonProgress, this`moduleProgress
      ensures Valid()
      ensures FindLesson(catalog, lessonId).None? ==>
        r == Err(NotFound) && moduleProgress == old(moduleProgress) && lessonProgress == old(lessonProgress)
      ensures FindLesson(catalog, lessonId).Some? ==>
        var lesson := FindLesson(catalog, lessonId).value;
        var before := if (user, lessonId) in old(lessonProgress) then old(lessonProgress)[(user, lessonId)]
                      else DefaultLessonProgress();
        var lessons := LessonsOf(catalog, lesson.moduleId);
        && lessonProgress == old(lessonProgress)[(user, lessonId) := LessonProgress(true, Some(OrElse(before.completedAt, now)))]
        && r.Ok?
        && r.value == RecomputeFromLessons(RowOr(old(moduleProgress), (user, lesson.moduleId), DefaultProgress()),
                                           |lessons|, CompletedLessonCount(lessonProgress, user, lessons), now)
        && moduleProgress == old(moduleProgress)[(user, lesson.moduleId) := r.value]
      ensures certificates == old(certificates) && submissions == old(submissions)
      ensures nextSubmissionId == old(nextSubmissionId)
    {
      var found := FindLesson(catalog, lessonId);
      if found.None? {
        return Err(NotFound);
      }
      var lesson := found.value;
      var lp := if (user, lessonId) in lessonProgress then lessonProgress[(user, lessonId)]
                else DefaultLessonProgress();
      lp := lp.(completed := true);
      if lp.completedAt.None? {
        lp := lp.(completedAt := Some(now));
      }
      lessonProgress := lessonProgress[(user, lessonId) := lp];
      var p := UpdateModuleProgressFromLessons(user, lesson.moduleId, LessonsOf(catalog, lesson.moduleId), now);
      return Ok(p);
    }

    /**
     Opening a module page: refused while the module is locked; otherwise the
     row is recomputed from lessons. The page's own lesson percentage divides by
     at least one lesson, so a module without lessons shows 0 there.
     */
    method VisitModule(user: nat, m: ModuleInfo, modules: seq<ModuleInfo>, lessons: seq<nat>, now: nat)
      returns (r: Result<ModuleView, ViewError>)
      requires Valid()
      modifies this`moduleProgress
      ensures Valid()
      ensures !CanAccess(old(moduleProgress), user, m, modules) ==>
        r == Err(Locked) && moduleProgress == old(moduleProgress)
      ensures CanAccess(old(moduleProgress), user, m, modules) ==>
        var done := CompletedLessonCount(lessonProgress, user, lessons);
        var p := RecomputeFromLessons(RowOr(old(moduleProgress), (user, m.id), DefaultProgress()), |lessons|, done, now);
        && r == Ok(ModuleView(Percent(done, if |lessons| == 0 then 1 else |lessons|), p))
        && moduleProgress == old(moduleProgress)[(user, m.id) := p]
      ensures lessonProgress == old(lessonProgress) && certificates == old(certificates)
      ensures submissions == old(submissions) && nextSubmissionId == old(nextSubmissionId)
    {
      var ok := CheckAccess(moduleProgress, user, m, modules);
      if !ok {
        return Err(Locked);
      }
      ghost var before := RowOr(moduleProgress, (user, m.id), DefaultProgress());
      var _ := GetModuleProgress(user, m.id, DefaultProgress());
      assert RowOr(moduleProgress, (user, m.id), DefaultProgress()) == before;
      var total := if |lessons| == 0 then 1 else |lessons|;
      var percent := Percent(CompletedLessonCount(lessonProgress, user, lessons), total);
      var p := UpdateModuleProgressFromLessons(user, m.id, lessons, now);
      assert p == RecomputeFromLessons(before, |lessons|, CompletedLessonCount(lessonProgress, user, lessons), now);
      r := Ok(ModuleView(percent, p));
    }

    /** Get-or-create of a certificate for (user, module). */
    method IssueCertificateIfNeeded(user: nat, m: ModuleInfo, score: nat, now: nat)
      returns (c: Certificate, created: bool)
      requires Valid()
      modifies this`certificates
      ensures Valid()
      ensures var issued := IssueIfNeeded(old(certificates), user, m, score, now);
              certificates == issued.certificates && c == issued.certificate && created == issued.created
    {
      if (user, m.id) in certificates {
        return certificates[(user, m.id)], false;
      }
      var number := CertificateNumber(m.courseId, m.id, user, now);
      c := Certificate(user, m.courseId, m.id, score, now, number);
      certificates := certificates[(user, m.id) := c];
      created := true;
    }

    /**
     Records a quiz attempt scoring `score` on the loaded row `p`: the best score
     is kept, the last attempt refreshed and the status advanced; a pass of the
     final-assessment module issues the certificate unless one exists.
     */
    method RecordQuizAttempt(user: nat, m: ModuleInfo, p: ModuleProgress, score: nat, now: nat)
      returns (u: QuizUpdate)
      requires Valid()
      modifies this`moduleProgress, this`certificates
      ensures Valid()
      ensures u == ApplyQuizAttempt(p, score, m.minScoreToPass, now)
      ensures moduleProgress == old(moduleProgress)[(user, m.id) := u.progress]
      ensures certificates == if u.passed && m.slug == FinalAssessmentSlug
                              then IssueIfNeeded(old(certificates), user, m, u.progress.score, now).certificates
                              else old(certificates)
    {
      var row := p;
      if score > row.score {
        row := row.(score := score);
      }
      row := row.(lastAttemptAt := Some(now));
      var passed: bool;
      if row.score >= m.minScoreToPass {
        row := row.(status := Completed);
        if row.completedAt.None? {
          row := row.(completedAt := Some(now));
        }
        passed := true;
      } else {
        if row.status == NotStarted {
          row := row.(status := InProgress);
        }
        passed := false;
      }
      moduleProgress := moduleProgress[(user, m.id) := row];
      u := QuizUpdate(row, passed);
      if passed && m.slug == FinalAssessmentSlug {
        var _, _ := IssueCertificateIfNeeded(user, m, row.score, now);
      }
    }

    /**
     A quiz submission: refused while locked or when the module has no
     questions; otherwise the answers are marked, the best score kept and the
     status advanced, and for the final-assessment module a pass issues the
     certificate.
     */
    method SubmitQuiz(user: nat, m: ModuleInfo, modules: seq<ModuleInfo>, qs: seq<Question>, answers: Answers, now: nat)
      returns (r: Result<QuizResult, ViewError>)
      requires Valid()
      modifies this`moduleProgress, this`certificates
      ensures Valid()
      ensures !CanAccess(old(moduleProgress), user, m, modules) ==>
        r == Err(Locked) && moduleProgress == old(moduleProgress) && certificates == old(certificates)
      ensures CanAccess(old(moduleProgress), user, m, modules) && |qs| == 0 ==>
        r == Err(NoQuestions) && moduleProgress == old(moduleProgress) && certificates == old(certificates)
      ensures CanAccess(old(moduleProgress), user, m, modules) && |qs| > 0 && HasUnreadable(qs, answers) ==>
        r.Err? && r.error.UnreadableChoice? && certificates == old(certificates) &&
        moduleProgress == old(moduleProgress)[(user, m.id) := RowOr(old(moduleProgress), (user, m.id), DefaultProgress())]
      ensures CanAccess(old(moduleProgress), user, m, modules) && |qs| > 0 && !HasUnreadable(qs, answers) ==> r.Ok?
      ensures r.Ok? ==>
        var score := Percent(QuizCorrectCount(qs, answers), |qs|);
        var u := ApplyQuizAttempt(RowOr(old(moduleProgress), (user, m.id), DefaultProgress()), score, m.minScoreToPass, now);
        && CanAccess(old(moduleProgress), user, m, modules) && |qs| > 0 && !HasUnreadable(qs, answers)
        && r.value.scorePercent == score && r.value.passed == u.passed && r.value.progress == u.progress
        && |r.value.marked| == |qs|
        && (forall i :: 0 <= i < |qs| ==> r.value.marked[i] == QuizMark(qs[i], PostedFor(answers, qs[i])))
        && moduleProgress == old(moduleProgress)[(user, m.id) := u.progress]
        && certificates == if u.passed && m.slug == FinalAssessmentSlug
                           then IssueIfNeeded(old(certificates), user, m, u.progress.score, now).certificates
                           else old(certificates)
    {
      var ok := CheckAccess(moduleProgress, user, m, modules);
      if !ok {
        return Err(Locked);
      }
      if |qs| == 0 {
        return Err(NoQuestions);
      }
      var p := GetModuleProgress(user, m.id, DefaultProgress());
      var marking := MarkQuiz(qs, answers);
      if marking.Err? {
        return Err(UnreadableChoice(marking.error.questionId));
      }
      var score := Percent(marking.value.correct, |qs|);
      var u := RecordQuizAttempt(user, m, p, score, now);
      r := Ok(QuizResult(marking.value.marked, score, u.passed, u.progress));
    }

    /**
     Records a pass on the learner's row, created from `defaults` if missing:
     completed, score raised to at least 100, first completion time kept.
     */
    method RecordPass(user: nat, moduleId: nat, defaults: ModuleProgress, now: nat) returns (p: ModuleProgress)
      modifies this`moduleProgress
      ensures p == ApplyPass(RowOr(old(moduleProgress), (user, moduleId), defaults), now)
      ensures moduleProgress == old(moduleProgress)[(user, moduleId) := p]
    {
      p := GetModuleProgress(user, moduleId, defaults);
      p := p.(status := Completed);
      p := p.(score := if p.score > 100 then p.score else 100);
      p := p.(completedAt := Some(OrElse(p.completedAt, now)));
      p := p.(lastAttemptAt := Some(now));
      moduleProgress := moduleProgress[(user, moduleId) := p];
    }

    /**
     Saving a submission. Only a submission that is both reviewed and passed
     touches progress: the row is created if missing and marked completed with
     score at least 100, keeping its first completion time.
     */
    method SaveSubmission(id: nat, s: Submission, now: nat)
      requires Valid()
      requires id < nextSubmissionId
      modifies this`submissions, this`moduleProgress
      ensures Valid()
      ensures submissions == old(submissions)[id := s]
      ensures s.reviewed && s.isPassed ==>
        moduleProgress == old(moduleProgress)[(s.user, s.moduleId) :=
          ApplyPass(RowOr(old(moduleProgress), (s.user, s.moduleId), SaveDefaults()), now)]
      ensures !(s.reviewed && s.isPassed) ==> moduleProgress == old(moduleProgress)
      ensures lessonProgress == old(lessonProgress) && certificates == old(certificates)
      ensures nextSubmissionId == old(nextSubmissionId)
    {
      submissions := submissions[id := s];
      if s.reviewed && s.isPassed {
        var _ := RecordPass(s.user, s.moduleId, SaveDefaults(), now);
      }
    }

    /**
     A final-test submission: refused while locked or without questions;
     otherwise one snapshot per question is stored in a new, unreviewed
     submission and the score is reported. Progress is not touched.
     */
    method SubmitFinalTest(user: nat, m: ModuleInfo, modules: seq<ModuleInfo>, qs: seq<Question>, answers: Answers,
                           now: nat)
      returns (r: Result<FinalResult, ViewError>)
      requires Valid()
      modifies this`submissions, this`nextSubmissionId, this`moduleProgress
      ensures Valid()
      ensures moduleProgress == old(moduleProgress) && certificates == old(certificates)
      ensures lessonProgress == old(lessonProgress)
      ensures !CanAccess(old(moduleProgress), user, m, modules) ==> r == Err(Locked)
      ensures CanAccess(old(moduleProgress), user, m, modules) && |qs| == 0 ==> r == Err(NoQuestions)
      ensures CanAccess(old(moduleProgress), user, m, modules) && |qs| > 0 && HasUnreadable(qs, answers) ==>
        r.Err? && r.error.UnreadableChoice?
      ensures CanAccess(old(moduleProgress), user, m, modules) && |qs| > 0 && !HasUnreadable(qs, answers) ==> r.Ok?
      ensures r.Err? ==> submissions == old(submissions) && nextSubmissionId == old(nextSubmissionId)
      ensures r.Ok? ==>
        && CanAccess(old(moduleProgress), user, m, modules) && |qs| > 0 && !HasUnreadable(qs, answers)
        && r.value.submissionId == old(nextSubmissionId) && r.value.submissionId !in old(submissions)
        && nextSubmissionId == old(nextSubmissionId) + 1
        && r.value.scorePercent == FinalScore(FinalCorrectCount(qs, answers), |qs|)
        && submissions.Keys == old(submissions).Keys + {r.value.submissionId}
        && (forall id :: id in old(submissions) ==> submissions[id] == old(submissions)[id])
        && var s := submissions[r.value.submissionId];
           s.user == user && s.moduleId == m.id && s.submittedAt == now && !s.reviewed && !s.isPassed &&
           s.reviewedBy.None? && s.reviewedAt.None? &&
           |s.answers| == |qs| &&
           forall i :: 0 <= i < |qs| ==> s.answers[i] == Snapshot(qs[i], PostedFor(answers, qs[i]))
    {
      var ok := CheckAccess(moduleProgress, user, m, modules);
      if !ok {
        return Err(Locked);
      }
      if |qs| == 0 {
        return Err(NoQuestions);
      }
      var marking := MarkFinalTest(qs, answers);
      if marking.Err? {
        return Err(UnreadableChoice(marking.error.questionId));
      }
      var id := nextSubmissionId;
      nextSubmissionId := nextSubmissionId + 1;
      SaveSubmission(id, NewSubmission(user, m.id, now, marking.value.snapshots), now);
      return Ok(FinalResult(id, marking.value.score));
    }

    /**
     The manager's pass for a final-test submission: the submission is marked
     reviewed and passed and saved (which records the pass on the learner's
     row), the pass is applied once more, and a certificate is created unless
     one exists. `m` is the submission's module; `savedAt` is the time of the
     review and save, `now` the time of the second update and of the certificate.
     */
    method ManagerMarkPass(submissionId: nat, reviewer: nat, m: ModuleInfo, savedAt: nat, now: nat)
      returns (r: Result<bool, ViewError>)
      requires Valid()
      requires submissionId in submissions ==> submissions[submissionId].moduleId == m.id
      modifies this`submissions, this`moduleProgress, this`certificates
      ensures Valid()
      ensures lessonProgress == old(lessonProgress) && nextSubmissionId == old(nextSubmissionId)
      ensures submissionId !in old(submissions) ==>
        r == Err(NotFound) && moduleProgress == old(moduleProgress) &&
        certificates == old(certificates) && submissions == old(submissions)
      ensures submissionId in old(submissions) ==>
        var s := old(submissions)[submissionId];
        var key := (s.user, m.id);
        var before := RowOr(old(moduleProgress), key, SaveDefaults());
        && submissions == old(submissions)[submissionId :=
             s.(reviewed := true, isPassed := true, reviewedBy := Some(reviewer), reviewedAt := Some(savedAt))]
        && moduleProgress == old(moduleProgress)[key := ApplyPass(ApplyPass(before, savedAt), now)]
        && moduleProgress[key].status == Completed
        && moduleProgress[key].score == (if before.score > 100 then before.score else 100)
        && moduleProgress[key].completedAt == Some(OrElse(before.completedAt, savedAt))
        && moduleProgress[key].lastAttemptAt == Some(now)
        && certificates == IssueIfNeeded(old(certificates), s.user, m, moduleProgress[key].score, now).certificates
        && r == Ok(key !in old(certificates))
    {
      if submissionId !in submissions {
        return Err(NotFound);
      }
      var s := submissions[submissionId];
      s := s.(reviewed := true, isPassed := true, reviewedBy := Some(reviewer), reviewedAt := Some(savedAt));
      ghost var before := RowOr(moduleProgress, (s.user, m.id), SaveDefaults());
      SaveSubmission(submissionId, s, savedAt);
      var p := RecordPass(s.user, m.id, MarkPassDefaults(), now);
      PassIdempotent(before, savedAt, now);
      var _, created := IssueCertificateIfNeeded(s.user, m, p.score, now);
      r := Ok(created);
    }
  }
}
