/**
 The module lock (a learner may open a module once every earlier mandatory
 module of the same course is passed) and the per-course progress figure on
 the learner's dashboard. Both read the stored `ModuleProgress` rows, keyed by
 (user id, module id).
 */
module Access {
  import opened Common
  import opened Records

  type ProgressTable = map<(nat, nat), ModuleProgress>

  /** `m` must be passed before `target` can be opened. */
  predicate IsPrerequisite(m: ModuleInfo, target: ModuleInfo) {
    m.courseId == target.courseId && m.order < target.order && m.isMandatory
  }

  /** The learner has a progress row for `m` and it meets `m`'s pass mark. */
  predicate HasPassed(progress: ProgressTable, user: nat, m: ModuleInfo) {
    (user, m.id) in progress && Passed(progress[(user, m.id)], m)
  }

  /** The lock rule over all modules `modules` known to the store. */
  predicate CanAccess(progress: ProgressTable, user: nat, target: ModuleInfo, modules: seq<ModuleInfo>) {
    forall i :: 0 <= i < |modules| && IsPrerequisite(modules[i], target) ==> HasPassed(progress, user, modules[i])
  }

  /**
   Walks the earlier mandatory modules of the target's course and refuses at the
   first one without a passing progress row.
   */
  method CheckAccess(progress: ProgressTable, user: nat, target: ModuleInfo, modules: seq<ModuleInfo>)
    returns (ok: bool)
    ensures ok <==> CanAccess(progress, user, target, modules)
    ensures !ok ==> exists i :: 0 <= i < |modules| && IsPrerequisite(modules[i], target) &&
                      !HasPassed(progress, user, modules[i])
  {
    for i := 0 to |modules|
      invariant forall k :: 0 <= k < i && IsPrerequisite(modules[k], target) ==> HasPassed(progress, user, modules[k])
    {
      var m := modules[i];
      if IsPrerequisite(m, target) {
        if (user, m.id) !in progress || progress[(user, m.id)].score < m.minScoreToPass {
          return false;
        }
      }
    }
    return true;
  }

  /** A module with no earlier mandatory module in its course, such as the first one, is always open. */
  lemma FirstModuleOpen(progress: ProgressTable, user: nat, target: ModuleInfo, modules: seq<ModuleInfo>)
    requires forall i :: 0 <= i < |modules| ==> !IsPrerequisite(modules[i], target)
    ensures CanAccess(progress, user, target, modules)
  {
  }

  /** Optional modules never lock anything, however they are scored. */
  lemma OptionalModulesNeverBlock(progress: ProgressTable, other: ProgressTable, user: nat,
                                  target: ModuleInfo, modules: seq<ModuleInfo>)
    requires forall i :: 0 <= i < |modules| && modules[i].isMandatory ==>
      ((user, modules[i].id) in progress <==> (user, modules[i].id) in other) &&
      ((user, modules[i].id) in progress ==> progress[(user, modules[i].id)].score == other[(user, modules[i].id)].score)
    ensures CanAccess(progress, user, target, modules) <==> CanAccess(other, user, target, modules)
  {
    if CanAccess(progress, user, target, modules) {
      forall i | 0 <= i < |modules| && IsPrerequisite(modules[i], target)
        ensures HasPassed(other, user, modules[i])
      {
        assert HasPassed(progress, user, modules[i]);
      }
    }
    if CanAccess(other, user, target, modules) {
      forall i | 0 <= i < |modules| && IsPrerequisite(modules[i], target)
        ensures HasPassed(progress, user, modules[i])
      {
        assert HasPassed(other, user, modules[i]);
      }
    }
  }

  /** The learner's rows grow: no row disappears and no score goes down. */
  predicate ScoresGrow(before: ProgressTable, after: ProgressTable) {
    forall k :: k in before ==> k in after && after[k].score >= before[k].score
  }

  /** Access once granted survives any change that keeps every row and lowers no score. */
  lemma AccessMonotone(before: ProgressTable, after: ProgressTable, user: nat, target: ModuleInfo, modules: seq<ModuleInfo>)
    requires ScoresGrow(before, after)
    requires CanAccess(before, user, target, modules)
    ensures CanAccess(after, user, target, modules)
  {
    forall i | 0 <= i < |modules| && IsPrerequisite(modules[i], target)
      ensures HasPassed(after, user, modules[i])
    {
      assert HasPassed(before, user, modules[i]);
    }
  }

  /**
   The two-module scenario: B (order 2) follows mandatory A (order 1, pass mark 80)
   in the same course. A best score of 60 on A keeps B locked; 85 opens it.
   */
  lemma TwoModuleScenario(user: nat, a: ModuleInfo, b: ModuleInfo, p60: ModuleProgress, p85: ModuleProgress)
    requires a.courseId == b.courseId && a.order == 1 && b.order == 2 && a.isMandatory && a.minScoreToPass == 80
    requires p60.score == 60 && p85.score == 85
    ensures !CanAccess(map[(user, a.id) := p60], user, b, [a, b])
    ensures CanAccess(map[(user, a.id) := p85], user, b, [a, b])
  {
    assert IsPrerequisite([a, b][0], b);
  }

  // ---------------------------------------------------------------- dashboard

  /** Number of `modules` the learner has passed. */
  function CountPassed(progress: ProgressTable, user: nat, modules: seq<ModuleInfo>): (n: nat)
    ensures n <= |modules|
  {
    if |modules| == 0 then 0
    else CountPassed(progress, user, modules[..|modules| - 1]) +
         (if HasPassed(progress, user, modules[|modules| - 1]) then 1 else 0)
  }

  lemma {:induction false} CountPassedAll(progress: ProgressTable, user: nat, modules: seq<ModuleInfo>)
    ensures CountPassed(progress, user, modules) == |modules| <==>
            forall i :: 0 <= i < |modules| ==> HasPassed(progress, user, modules[i])
    decreases |modules|
  {
    if |modules| > 0 {
      var init := modules[..|modules| - 1];
      CountPassedAll(progress, user, init);
      assert forall i :: 0 <= i < |init| ==> init[i] == modules[i];
    }
  }

  datatype CourseFigure = CourseFigure(progressPercent: nat, completedModules: nat, totalModules: nat)

  /**
   The dashboard figure for one course: modules passed over modules in the
   course, where an empty course counts as one module so the division is defined.
   */
  method CourseProgress(progress: ProgressTable, user: nat, courseModules: seq<ModuleInfo>) returns (f: CourseFigure)
    ensures f.totalModules == if |courseModules| == 0 then 1 else |courseModules|
    ensures f.completedModules == CountPassed(progress, user, courseModules)
    ensures f.progressPercent == Percent(f.completedModules, f.totalModules) <= 100
    ensures f.progressPercent == 100 <==>
      |courseModules| > 0 && forall i :: 0 <= i < |courseModules| ==> HasPassed(progress, user, courseModules[i])
  {
    var total := if |courseModules| == 0 then 1 else |courseModules|;
    var completed := 0;
    for i := 0 to |courseModules|
      invariant completed == CountPassed(progress, user, courseModules[..i])
    {
      var m := courseModules[i];
      if (user, m.id) in progress && progress[(user, m.id)].score >= m.minScoreToPass {
        completed := completed + 1;
      }
      assert courseModules[..i + 1][..i] == courseModules[..i];
    }
    assert courseModules[..|courseModules|] == courseModules;
    PercentBounds(completed, total);
    CountPassedAll(progress, user, courseModules);
    f := CourseFigure(Percent(completed, total), completed, total);
  }
}
