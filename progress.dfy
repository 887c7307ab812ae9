/**
 How a `ModuleProgress` row changes under the three events that touch it:
 recomputation from lesson completion, a quiz attempt, and a pass recorded for a
 reviewed final test. Each is a function from the row before to the row after;
 the request handlers in module Store apply them field by field.
 */
module Progress {
  import opened Common
  import opened Records

  /**
   Recomputation from lessons: `total` lessons in the module, `completed` of
   them completed by the learner. A module without lessons counts as completed
   with score 100; otherwise the score is the completion percentage, which
   replaces the stored score, and the status follows it.
   */
  function RecomputeFromLessons(p: ModuleProgress, total: nat, completed: nat, now: nat): (r: ModuleProgress)
    ensures r.lastAttemptAt == Some(now)
    ensures total == 0 ==> r.status == Completed && r.score == 100
    ensures total > 0 ==> r.score == Percent(completed, total)
    ensures total > 0 ==> (r.status == NotStarted <==> r.score == 0)
    ensures total > 0 ==> (r.status == Completed <==> r.score >= 100)
    ensures r.status == Completed ==> r.completedAt == Some(OrElse(p.completedAt, now))
    ensures r.status != Completed ==> r.completedAt == None
  {
    if total == 0 then
      ModuleProgress(Completed, 100, Some(OrElse(p.completedAt, now)), Some(now))
    else
      var percent := Percent(completed, total);
      if percent == 0 then
        ModuleProgress(NotStarted, percent, None, Some(now))
      else if percent < 100 then
        ModuleProgress(InProgress, percent, None, Some(now))
      else
        ModuleProgress(Completed, percent, Some(OrElse(p.completedAt, now)), Some(now))
  }

  /** With no more completed lessons than lessons, the lesson-driven score is a percentage. */
  lemma LessonScoreInRange(p: ModuleProgress, total: nat, completed: nat, now: nat)
    requires completed <= total
    ensures RecomputeFromLessons(p, total, completed, now).score <= 100
    ensures total > 0 ==>
      (RecomputeFromLessons(p, total, completed, now).status == Completed <==> completed == total)
  {
    if total > 0 {
      PercentBounds(completed, total);
    }
  }

  /** Every lesson done gives completed with 100; none done gives not_started with 0. */
  lemma AllOrNoLessons(p: ModuleProgress, total: nat, now: nat)
    requires total > 0
    ensures RecomputeFromLessons(p, total, total, now).status == Completed
    ensures RecomputeFromLessons(p, total, total, now).score == 100
    ensures RecomputeFromLessons(p, total, 0, now).status == NotStarted
    ensures RecomputeFromLessons(p, total, 0, now).score == 0
  {
    PercentBounds(total, total);
    PercentBounds(0, total);
  }

  /**
   The lesson-driven result overwrites the stored score and status: two rows
   that differ only in score, status and last attempt recompute to the same row.
   */
  lemma RecomputeOverwrites(p: ModuleProgress, q: ModuleProgress, total: nat, completed: nat, now: nat)
    requires p.completedAt == q.completedAt
    ensures RecomputeFromLessons(p, total, completed, now) == RecomputeFromLessons(q, total, completed, now)
  {
  }

  /** Recomputing again with the same counts changes nothing but the last-attempt time. */
  lemma RecomputeIdempotent(p: ModuleProgress, total: nat, completed: nat, t1: nat, t2: nat)
    ensures var once := RecomputeFromLessons(p, total, completed, t1);
            RecomputeFromLessons(once, total, completed, t2) == once.(lastAttemptAt := Some(t2))
  {
  }

  /**
   Lesson recompute is not monotonic: a completed module whose lesson count grows
   drops back to in_progress, loses its completion time and its score.
   */
  lemma LessonRecomputeCanRegress()
    ensures var done := RecomputeFromLessons(DefaultProgress(), 1, 1, 10);
            var later := RecomputeFromLessons(done, 2, 1, 20);
            done.status == Completed && done.score == 100 && done.completedAt == Some(10) &&
            later.status == InProgress && later.score == 50 && later.completedAt == None
  {
    assert Percent(1, 1) == 100;
    assert Percent(1, 2) == 50;
  }

  /** The outcome of one quiz attempt: the row after it and the `passed` flag shown. */
  datatype QuizUpdate = QuizUpdate(progress: ModuleProgress, passed: bool)

  /**
   A quiz attempt scoring `attempt`: the best score is kept, the module is
   completed once the best score reaches the pass mark (even if this attempt
   alone fell short), and otherwise only not_started moves to in_progress.
   */
  function ApplyQuizAttempt(p: ModuleProgress, attempt: nat, minScore: nat, now: nat): (u: QuizUpdate)
    ensures u.progress.score >= p.score && u.progress.score >= attempt
    ensures u.progress.score == p.score || u.progress.score == attempt
    ensures u.progress.lastAttemptAt == Some(now)
    ensures u.passed <==> u.progress.score >= minScore
    ensures u.passed ==> u.progress.status == Completed
    ensures u.passed ==> u.progress.completedAt == Some(OrElse(p.completedAt, now))
    ensures !u.passed ==> u.progress.completedAt == p.completedAt
    ensures !u.passed && p.status == NotStarted ==> u.progress.status == InProgress
    ensures !u.passed && p.status != NotStarted ==> u.progress.status == p.status
  {
    var score := if attempt > p.score then attempt else p.score;
    if score >= minScore then
      QuizUpdate(ModuleProgress(Completed, score, Some(OrElse(p.completedAt, now)), Some(now)), true)
    else
      var status := if p.status == NotStarted then InProgress else p.status;
      QuizUpdate(ModuleProgress(status, score, p.completedAt, Some(now)), false)
  }

  /** A quiz attempt never moves the status backwards, and a passed module stays passed. */
  lemma QuizNeverRegresses(p: ModuleProgress, attempt: nat, m: ModuleInfo, now: nat)
    ensures var r := ApplyQuizAttempt(p, attempt, m.minScoreToPass, now).progress;
            Rank(r.status) >= Rank(p.status) && (Passed(p, m) ==> Passed(r, m))
  {
  }

  /** The row after a run of quiz attempts, one timestamp per attempt. */
  function QuizHistory(p: ModuleProgress, attempts: seq<nat>, minScore: nat, now: nat): (r: ModuleProgress)
    decreases |attempts|
  {
    if |attempts| == 0 then p
    else QuizHistory(ApplyQuizAttempt(p, attempts[0], minScore, now).progress, attempts[1..], minScore, now)
  }

  function MaxOf(start: nat, xs: seq<nat>): (m: nat)
    ensures m >= start && forall i :: 0 <= i < |xs| ==> m >= xs[i]
    ensures m == start || exists i :: 0 <= i < |xs| && m == xs[i]
  {
    if |xs| == 0 then start
    else
      var rest := MaxOf(start, xs[..|xs| - 1]);
      if xs[|xs| - 1] > rest then xs[|xs| - 1] else rest
  }

  lemma {:induction false} MaxOfCons(start: nat, x: nat, xs: seq<nat>)
    ensures MaxOf(start, [x] + xs) == MaxOf(if x > start then x else start, xs)
    decreases |xs|
  {
    if |xs| > 0 {
      var s := [x] + xs;
      assert s[..|s| - 1] == [x] + xs[..|xs| - 1];
      MaxOfCons(start, x, xs[..|xs| - 1]);
    } else {
      assert ([x] + xs)[..0] == [];
    }
  }

  /** Best score wins: after any run of attempts the stored score is the maximum seen. */
  lemma {:induction false} BestScoreWins(p: ModuleProgress, attempts: seq<nat>, minScore: nat, now: nat)
    ensures QuizHistory(p, attempts, minScore, now).score == MaxOf(p.score, attempts)
    decreases |attempts|
  {
    if |attempts| > 0 {
      var next := ApplyQuizAttempt(p, attempts[0], minScore, now).progress;
      BestScoreWins(next, attempts[1..], minScore, now);
      assert attempts == [attempts[0]] + attempts[1..];
      MaxOfCons(p.score, attempts[0], attempts[1..]);
    }
  }

  /**
   The retake scenario: a first attempt of 60 on a module with pass mark 80 leaves
   it in progress and not passed; a retake of 85 completes it with score 85.
   */
  lemma RetakeScenario(m: ModuleInfo, t1: nat, t2: nat)
    requires m.minScoreToPass == 80
    ensures var first := ApplyQuizAttempt(DefaultProgress(), 60, 80, t1);
            var second := ApplyQuizAttempt(first.progress, 85, 80, t2);
            !first.passed && first.progress.status == InProgress && !Passed(first.progress, m) &&
            second.passed && second.progress.status == Completed && second.progress.score == 85 &&
            second.progress.completedAt == Some(t2) && Passed(second.progress, m)
  {
  }

  /**
   A pass recorded for a reviewed final test: completed, score at least 100, the
   first completion time kept, the last attempt refreshed.
   */
  function ApplyPass(p: ModuleProgress, now: nat): (r: ModuleProgress)
    ensures r.status == Completed
    ensures r.score >= 100 && r.score >= p.score && (p.score >= 100 ==> r.score == p.score)
    ensures p.score < 100 ==> r.score == 100
    ensures r.completedAt == Some(OrElse(p.completedAt, now))
    ensures r.lastAttemptAt == Some(now)
  {
    ModuleProgress(Completed, if p.score > 100 then p.score else 100, Some(OrElse(p.completedAt, now)), Some(now))
  }

  /**
   Applying the pass twice, as the manager's pass does (once when the reviewed
   submission is saved and once more in the view), agrees with applying it once
   on status, score and completion time.
   */
  lemma PassIdempotent(p: ModuleProgress, t1: nat, t2: nat)
    ensures var once := ApplyPass(p, t1);
            var twice := ApplyPass(once, t2);
            twice.status == once.status && twice.score == once.score &&
            twice.completedAt == once.completedAt && twice.lastAttemptAt == Some(t2)
  {
  }

  /** After a pass the module counts as passed whenever its pass mark is at most 100. */
  lemma PassMeetsPassMark(p: ModuleProgress, m: ModuleInfo, now: nat)
    requires m.minScoreToPass <= 100
    ensures Passed(ApplyPass(p, now), m)
  {
  }
}
