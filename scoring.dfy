/**
 Marking of the module quiz and of the final test, and the summary figures the
 manager's review screen derives from a stored final-test answer list.
 */
module Scoring {
  import opened Common
  import opened Records

  datatype Choice = Choice(id: int, text: string, isCorrect: bool)

  /** A question with its choices in stored order. */
  datatype Question = Question(id: int, text: string, explanation: string, choices: seq<Choice>)

  /**
   The form value posted for one question: nothing (absent or the empty string),
   a choice id, or text the database layer cannot read as an id.
   */
  datatype Posted = Blank | ChoiceId(id: int) | NotANumber

  /** The posted answers, keyed by question id; a question without an entry was left blank. */
  type Answers = map<int, Posted>

  datatype MarkError = UnreadableChoiceId(questionId: int)

  function PostedFor(answers: Answers, q: Question): Posted {
    if q.id in answers then answers[q.id] else Blank
  }

  predicate IdsUnique(choices: seq<Choice>) {
    forall i, j :: 0 <= i < j < |choices| ==> choices[i].id != choices[j].id
  }

  /** The first of `choices` carrying id `id`, if any. */
  function FindChoice(choices: seq<Choice>, id: int): (r: Option<Choice>)
    ensures r.Some? <==> exists i :: 0 <= i < |choices| && choices[i].id == id
    ensures r.Some? ==> exists i :: 0 <= i < |choices| && choices[i] == r.value && r.value.id == id &&
                         forall j :: 0 <= j < i ==> choices[j].id != id
  {
    if |choices| == 0 then None
    else if choices[0].id == id then Some(choices[0])
    else
      var r := FindChoice(choices[1..], id);
      assert forall i :: 0 < i < |choices| ==> choices[i] == choices[1..][i - 1];
      r
  }

  /**
   The correct choice `filter(is_correct=True).first()` returns: `Choice` declares
   no ordering, so `first()` orders by primary key and yields the flagged choice
   with the lowest id.
   */
  function LowestCorrect(choices: seq<Choice>): (r: Option<Choice>)
    ensures r.Some? <==> exists i :: 0 <= i < |choices| && choices[i].isCorrect
    ensures r.Some? ==> r.value.isCorrect && exists i :: 0 <= i < |choices| && choices[i] == r.value
    ensures r.Some? ==> forall j :: 0 <= j < |choices| && choices[j].isCorrect ==> r.value.id <= choices[j].id
  {
    if |choices| == 0 then None
    else
      var rest := LowestCorrect(choices[1..]);
      assert forall i :: 0 < i < |choices| ==> choices[i] == choices[1..][i - 1];
      if !choices[0].isCorrect then rest
      else if rest.Some? && rest.value.id < choices[0].id then rest
      else Some(choices[0])
  }

  /** The choice a posted value selects among a question's own choices. */
  function Selection(q: Question, p: Posted): Option<Choice> {
    if p.ChoiceId? then FindChoice(q.choices, p.id) else None
  }

  // ---------------------------------------------------------------- quiz

  /** Quiz rule: the selected choice of this question is flagged correct. */
  predicate QuizCorrect(q: Question, p: Posted) {
    var s := Selection(q, p);
    s.Some? && s.value.isCorrect
  }

  /**
   A quiz answer is correct exactly when it names one of the question's own
   choices and that choice is flagged correct; a blank, an unknown id or the id
   of another question's choice is incorrect.
   */
  lemma QuizCorrectMeans(q: Question, p: Posted)
    requires IdsUnique(q.choices)
    ensures QuizCorrect(q, p) <==>
      p.ChoiceId? && exists i :: 0 <= i < |q.choices| && q.choices[i].id == p.id && q.choices[i].isCorrect
  {
    if p.ChoiceId? && exists i :: 0 <= i < |q.choices| && q.choices[i].id == p.id && q.choices[i].isCorrect {
      var i :| 0 <= i < |q.choices| && q.choices[i].id == p.id && q.choices[i].isCorrect;
      var s := FindChoice(q.choices, p.id);
      var k :| 0 <= k < |q.choices| && q.choices[k] == s.value && s.value.id == p.id &&
               forall j :: 0 <= j < k ==> q.choices[j].id != p.id;
      assert k == i;
    }
  }

  datatype MarkedAnswer = MarkedAnswer(questionId: int, selected: Option<Choice>, isCorrect: bool)

  function QuizMark(q: Question, p: Posted): MarkedAnswer {
    MarkedAnswer(q.id, Selection(q, p), QuizCorrect(q, p))
  }

  /** Number of questions answered correctly under the quiz rule. */
  function QuizCorrectCount(qs: seq<Question>, answers: Answers): (n: nat)
    ensures n <= |qs|
  {
    if |qs| == 0 then 0
    else QuizCorrectCount(qs[..|qs| - 1], answers) + (if QuizCorrect(qs[|qs| - 1], PostedFor(answers, qs[|qs| - 1])) then 1 else 0)
  }

  predicate HasUnreadable(qs: seq<Question>, answers: Answers) {
    exists i :: 0 <= i < |qs| && PostedFor(answers, qs[i]) == NotANumber
  }

  datatype QuizMarking = QuizMarking(marked: seq<MarkedAnswer>, correct: nat)

  /**
   Marks every question in order. An unreadable id makes the database lookup
   raise, and the request fails; otherwise one marked answer per question.
   */
  method MarkQuiz(qs: seq<Question>, answers: Answers) returns (r: Result<QuizMarking, MarkError>)
    ensures r.Err? <==> HasUnreadable(qs, answers)
    ensures r.Err? ==> exists i :: 0 <= i < |qs| && PostedFor(answers, qs[i]) == NotANumber &&
                         r.error == UnreadableChoiceId(qs[i].id)
    ensures r.Ok? ==> |r.value.marked| == |qs|
    ensures r.Ok? ==> forall i :: 0 <= i < |qs| ==> r.value.marked[i] == QuizMark(qs[i], PostedFor(answers, qs[i]))
    ensures r.Ok? ==> r.value.correct == QuizCorrectCount(qs, answers)
  {
    var correct := 0;
    var marked := [];
    for i := 0 to |qs|
      invariant |marked| == i
      invariant forall k :: 0 <= k < i ==> marked[k] == QuizMark(qs[k], PostedFor(answers, qs[k]))
      invariant correct == QuizCorrectCount(qs[..i], answers)
      invariant forall k :: 0 <= k < i ==> PostedFor(answers, qs[k]) != NotANumber
    {
      var q := qs[i];
      var posted := PostedFor(answers, q);
      var selected: Option<Choice> := None;
      var isCorrect := false;
      match posted {
        case Blank =>
        case NotANumber =>
          return Err(UnreadableChoiceId(q.id));
        case ChoiceId(id) =>
          selected := FindChoice(q.choices, id);
          if selected.Some? {
            isCorrect := selected.value.isCorrect;
          }
      }
      if isCorrect {
        correct := correct + 1;
      }
      marked := marked + [MarkedAnswer(q.id, selected, isCorrect)];
      assert qs[..i + 1][..i] == qs[..i];
    }
    assert qs[..|qs|] == qs;
    return Ok(QuizMarking(marked, correct));
  }

  // ---------------------------------------------------------------- final test

  /** Final-test rule: the selected choice is the question's correct choice with the lowest id. */
  predicate FinalCorrect(q: Question, p: Posted) {
    var s := Selection(q, p);
    var c := LowestCorrect(q.choices);
    s.Some? && c.Some? && s.value.id == c.value.id
  }

  /** The final-test rule is never more lenient than the quiz rule. */
  lemma FinalCorrectIsQuizCorrect(q: Question, p: Posted)
    requires IdsUnique(q.choices)
    requires FinalCorrect(q, p)
    ensures QuizCorrect(q, p)
  {
    var s := Selection(q, p).value;
    var c := LowestCorrect(q.choices).value;
    var i :| 0 <= i < |q.choices| && q.choices[i] == s && s.id == p.id &&
             forall j :: 0 <= j < i ==> q.choices[j].id != p.id;
    var k :| 0 <= k < |q.choices| && q.choices[k] == c && c.isCorrect;
    assert i == k;
  }

  /** ... and it is strictly stricter: a second correct choice counts for the quiz only. */
  lemma FinalStricterThanQuiz()
    ensures var q := Question(1, "Q", "", [Choice(10, "A", true), Choice(11, "B", true)]);
            QuizCorrect(q, ChoiceId(11)) && !FinalCorrect(q, ChoiceId(11))
  {
  }

  /** A question with no correct choice is never correct in the final test. */
  lemma NoCorrectChoiceNeverCorrect(q: Question, p: Posted)
    requires forall i :: 0 <= i < |q.choices| ==> !q.choices[i].isCorrect
    ensures !FinalCorrect(q, p)
  {
  }

  /** With at most one correct choice the two rules agree. */
  lemma RulesAgreeOnSingleCorrect(q: Question, p: Posted)
    requires IdsUnique(q.choices)
    requires forall i, j :: 0 <= i < j < |q.choices| ==> !(q.choices[i].isCorrect && q.choices[j].isCorrect)
    ensures QuizCorrect(q, p) <==> FinalCorrect(q, p)
  {
    if QuizCorrect(q, p) {
      var s := Selection(q, p).value;
      var i :| 0 <= i < |q.choices| && q.choices[i] == s && s.id == p.id &&
               forall j :: 0 <= j < i ==> q.choices[j].id != p.id;
      var c := LowestCorrect(q.choices).value;
      var k :| 0 <= k < |q.choices| && q.choices[k] == c && c.isCorrect;
      assert i == k;
    }
    if FinalCorrect(q, p) {
      FinalCorrectIsQuizCorrect(q, p);
    }
  }

  function TextOf(c: Option<Choice>): Option<string> {
    if c.Some? then Some(c.value.text) else None
  }

  function IdOf(c: Option<Choice>): Option<int> {
    if c.Some? then Some(c.value.id) else None
  }

  /** The snapshot stored for one question of a final test. */
  function Snapshot(q: Question, p: Posted): (a: AnswerSnapshot)
    ensures a.questionId == q.id && a.questionText == q.text && a.explanation == q.explanation
    ensures a.isCorrect == FinalCorrect(q, p)
  {
    var s := Selection(q, p);
    AnswerSnapshot(q.id, q.text, IdOf(s), TextOf(s), TextOf(LowestCorrect(q.choices)),
                   FinalCorrect(q, p), q.explanation)
  }

  /**
   The choice fields of a snapshot: the posted choice, kept only if it belongs
   to the question, with its text; and the text of the correct choice with the
   lowest id, if the question has one.
   */
  lemma SnapshotFields(q: Question, p: Posted)
    ensures var a := Snapshot(q, p);
            && (a.selectedChoiceId.Some? <==> p.ChoiceId? && exists i :: 0 <= i < |q.choices| && q.choices[i].id == p.id)
            && (a.selectedChoiceId.Some? ==>
                  a.selectedChoiceId == Some(p.id) &&
                  exists i :: 0 <= i < |q.choices| && q.choices[i].id == p.id && a.selectedChoiceText == Some(q.choices[i].text))
            && (a.selectedChoiceId.None? ==> a.selectedChoiceText.None?)
            && (a.correctChoiceText.Some? <==> exists i :: 0 <= i < |q.choices| && q.choices[i].isCorrect)
            && (a.correctChoiceText.Some? ==>
                  exists i :: 0 <= i < |q.choices| && q.choices[i].isCorrect && a.correctChoiceText == Some(q.choices[i].text) &&
                    forall j :: 0 <= j < |q.choices| && q.choices[j].isCorrect ==> q.choices[i].id <= q.choices[j].id)
  {
  }

  /** The snapshots of a final test, one per question in order. */
  function SnapshotsOf(qs: seq<Question>, answers: Answers): (r: seq<AnswerSnapshot>)
    ensures |r| == |qs|
  {
    if |qs| == 0 then [] else SnapshotsOf(qs[..|qs| - 1], answers) + [Snapshot(qs[|qs| - 1], PostedFor(answers, qs[|qs| - 1]))]
  }

  /** Snapshot `k` is the snapshot of question `k` and its posted answer. */
  lemma {:induction false} SnapshotsOfIndex(qs: seq<Question>, answers: Answers)
    ensures forall k :: 0 <= k < |qs| ==> SnapshotsOf(qs, answers)[k] == Snapshot(qs[k], PostedFor(answers, qs[k]))
  {
    if |qs| > 0 {
      var init := qs[..|qs| - 1];
      SnapshotsOfIndex(init, answers);
      assert forall k :: 0 <= k < |qs| - 1 ==> init[k] == qs[k];
    }
  }

  function FinalCorrectCount(qs: seq<Question>, answers: Answers): (n: nat)
    ensures n <= |qs|
  {
    if |qs| == 0 then 0
    else FinalCorrectCount(qs[..|qs| - 1], answers) + (if FinalCorrect(qs[|qs| - 1], PostedFor(answers, qs[|qs| - 1])) then 1 else 0)
  }

  /** Final-test score: the percentage correct, 0 for a test without questions. */
  function FinalScore(correct: nat, total: nat): (s: nat)
    requires correct <= total
    ensures s <= 100
    ensures total == 0 ==> s == 0
    ensures total > 0 ==> s == Percent(correct, total)
  {
    if total > 0 then PercentBounds(correct, total); Percent(correct, total) else 0
  }

  datatype FinalMarking = FinalMarking(snapshots: seq<AnswerSnapshot>, correct: nat, score: nat)

  /** One question of a final test, marked as the view's loop marks it. */
  method MarkAnswer(q: Question, posted: Posted) returns (a: AnswerSnapshot)
    requires !posted.NotANumber?
    ensures a == Snapshot(q, posted)
  {
    var selected: Option<Choice> := None;
    if posted.ChoiceId? {
      selected := FindChoice(q.choices, posted.id);
    }
    var correctChoice := LowestCorrect(q.choices);
    var isCorrect := selected.Some? && correctChoice.Some? && selected.value.id == correctChoice.value.id;
    a := AnswerSnapshot(q.id, q.text, IdOf(selected), TextOf(selected), TextOf(correctChoice), isCorrect, q.explanation);
  }

  /**
   Marks a final test: one snapshot per question in question order, and the
   score. Nothing about the learner's progress is touched here.
   */
  method MarkFinalTest(qs: seq<Question>, answers: Answers) returns (r: Result<FinalMarking, MarkError>)
    ensures r.Err? <==> HasUnreadable(qs, answers)
    ensures r.Err? ==> exists i :: 0 <= i < |qs| && PostedFor(answers, qs[i]) == NotANumber &&
                         r.error == UnreadableChoiceId(qs[i].id)
    ensures r.Ok? ==> |r.value.snapshots| == |qs|
    ensures r.Ok? ==> forall i :: 0 <= i < |qs| ==> r.value.snapshots[i] == Snapshot(qs[i], PostedFor(answers, qs[i]))
    ensures r.Ok? ==> r.value.correct == FinalCorrectCount(qs, answers) <= |qs|
    ensures r.Ok? ==> r.value.score == FinalScore(r.value.correct, |qs|)
  {
    var snapshots := [];
    var correct := 0;
    for i := 0 to |qs|
      invariant snapshots == SnapshotsOf(qs[..i], answers)
      invariant correct == FinalCorrectCount(qs[..i], answers)
      invariant forall k :: 0 <= k < i ==> PostedFor(answers, qs[k]) != NotANumber
    {
      var q := qs[i];
      var posted := PostedFor(answers, q);
      if posted.NotANumber? {
        assert PostedFor(answers, qs[i]) == NotANumber;
        return Err(UnreadableChoiceId(q.id));
      }
      var snapshot := MarkAnswer(q, posted);
      assert qs[..i + 1][..i] == qs[..i] && qs[..i + 1][i] == q;
      assert FinalCorrectCount(qs[..i + 1], answers) ==
             FinalCorrectCount(qs[..i], answers) + (if snapshot.isCorrect then 1 else 0);
      assert SnapshotsOf(qs[..i + 1], answers) == SnapshotsOf(qs[..i], answers) + [snapshot];
      if snapshot.isCorrect {
        correct := correct + 1;
      }
      snapshots := snapshots + [snapshot];
    }
    assert qs[..|qs|] == qs;
    SnapshotsOfIndex(qs, answers);
    var score := if |qs| > 0 then Percent(correct, |qs|) else 0;
    return Ok(FinalMarking(snapshots, correct, score));
  }

  // ---------------------------------------------------------------- review summary

  datatype Summary = Summary(total: nat, correct: nat, incorrect: nat, scorePercent: nat)

  function CountCorrect(answers: seq<AnswerSnapshot>): (n: nat)
    ensures n <= |answers|
  {
    if |answers| == 0 then 0
    else CountCorrect(answers[..|answers| - 1]) + (if answers[|answers| - 1].isCorrect then 1 else 0)
  }

  /** The figures shown beside each submission on the manager's review list. */
  function SummaryOf(answers: seq<AnswerSnapshot>): (s: Summary)
    ensures s.total == |answers| && s.correct + s.incorrect == s.total
    ensures s.correct == CountCorrect(answers)
    ensures s.scorePercent <= 100
    ensures s.total > 0 ==> (s.scorePercent == 100 <==> s.incorrect == 0)
    ensures s.total == 0 ==> s.scorePercent == 0
    ensures s.total > 0 ==> s.scorePercent == Percent(s.correct, s.total)
  {
    var total := |answers|;
    var correct := CountCorrect(answers);
    var percent := if total > 0 then PercentBounds(correct, total); Percent(correct, total) else 0;
    Summary(total, correct, total - correct, percent)
  }

  lemma {:induction false} CountCorrectOfSnapshots(qs: seq<Question>, answers: Answers, snapshots: seq<AnswerSnapshot>)
    requires |snapshots| == |qs|
    requires forall i :: 0 <= i < |qs| ==> snapshots[i] == Snapshot(qs[i], PostedFor(answers, qs[i]))
    ensures CountCorrect(snapshots) == FinalCorrectCount(qs, answers)
    decreases |qs|
  {
    if |qs| > 0 {
      var n := |qs| - 1;
      CountCorrectOfSnapshots(qs[..n], answers, snapshots[..n]);
    }
  }

  /** The review screen recomputes from the stored snapshots exactly the score the learner was given. */
  lemma SummaryMatchesMarking(qs: seq<Question>, answers: Answers, m: FinalMarking)
    requires |m.snapshots| == |qs|
    requires forall i :: 0 <= i < |qs| ==> m.snapshots[i] == Snapshot(qs[i], PostedFor(answers, qs[i]))
    requires m.correct == FinalCorrectCount(qs, answers)
    requires m.score == FinalScore(m.correct, |qs|)
    ensures SummaryOf(m.snapshots).correct == m.correct
    ensures SummaryOf(m.snapshots).scorePercent == m.score
  {
    CountCorrectOfSnapshots(qs, answers, m.snapshots);
  }
}
