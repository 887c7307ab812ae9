/**
 The question import of the management screens. The uploaded JSON is either a
 fixture list (objects with "model", "pk" and "fields", questions and choices
 interleaved) or a list of question entries with their choices inline. The
 import walks the list once, creating question and choice rows and counting the
 entries it skips. A Python exception part way through (a missing key, a value
 of the wrong type) ends the request; the rows created before it stay.
 */
module Importer {
  import opened Common
  import opened Text

  /** A parsed JSON value; objects are maps from keys to values. */
  datatype Json =
    | JNull
    | JBool(b: bool)
    | JNum(n: int)
    | JStr(s: string)
    | JArr(items: seq<Json>)
    | JObj(fields: map<string, Json>)

  /** The Python exception that ends an import, or the handled missing-module case. */
  datatype ImportError =
    | ModuleNotFound          // the target module does not exist: nothing is imported
    | NotAContainer           // `key in v` on a number, boolean or null
    | NoGetMethod             // `.get` on something other than an object
    | MissingKey(key: string) // `v[key]` on an object without that key
    | Unhashable              // a list or object used as a dictionary key
    | NotIterable             // `for x in v` on a number, boolean or null
    | NotSubscriptable        // `v["text"]` on something other than an object
    | UnsupportedValue        // a module id or slug of a type the lookup does not accept here

  /** Python truthiness. */
  predicate Truthy(v: Json) {
    match v
    case JNull => false
    case JBool(b) => b
    case JNum(n) => n != 0
    case JStr(s) => |s| > 0
    case JArr(items) => |items| > 0
    case JObj(fields) => |fields| > 0
  }

  /** `fields.get(key, default)`. */
  function Get(fields: map<string, Json>, key: string, default: Json): Json {
    if key in fields then fields[key] else default
  }

  /** Values Python can use as dictionary keys. */
  predicate Hashable(v: Json) {
    !v.JArr? && !v.JObj?
  }

  /** Python's `key in container`: a key of an object, an element of a list, a substring of a string. */
  function PyIn(key: string, container: Json): Result<bool, ImportError> {
    match container
    case JObj(fields) => Ok(key in fields)
    case JArr(items) => Ok(JStr(key) in items)
    case JStr(s) => Ok(Occurs(s, key))
    case _ => Err(NotAContainer)
  }

  /** The one-character strings Python yields when iterating a string. */
  function Chars(s: string): (cs: seq<Json>)
    ensures |cs| == |s| && forall i :: 0 <= i < |s| ==> cs[i] == JStr([s[i]])
  {
    if |s| == 0 then [] else [JStr([s[0]])] + Chars(s[1..])
  }

  /** A created question: its module, and text, order and explanation as found in the file. */
  datatype NewQuestion = NewQuestion(moduleId: int, text: Json, order: Json, explanation: Json)

  /** A created choice: the position of its question among the created questions. */
  datatype NewChoice = NewChoice(question: nat, text: Json, isCorrect: Json)

  /**
   What an import did: the rows created, in order, the number of entries
   skipped, and the exception that ended it, if any. On success the message
   reports |questions| questions, |choices| choices and `skipped`.
   */
  datatype ImportRun = ImportRun(questions: seq<NewQuestion>, choices: seq<NewChoice>, skipped: nat,
                                 failure: Option<ImportError>)

  const Fresh := ImportRun([], [], 0, None)

  function Fail(run: ImportRun, e: ImportError): ImportRun {
    run.(failure := Some(e))
  }

  // ---------------------------------------------------------------- format detection

  /**
   The fixture format is chosen for a non-empty list whose first item has both
   "model" and "fields" (in the sense of Python's `in`); the second test is
   made only when the first succeeds.
   */
  function FixtureFormat(data: Json): (r: Result<bool, ImportError>)
    ensures !data.JArr? || |data.items| == 0 ==> r == Ok(false)
    ensures data.JArr? && |data.items| > 0 && data.items[0].JObj? ==>
      (r == Ok(true) <==> "model" in data.items[0].fields && "fields" in data.items[0].fields) && r.Ok?
    ensures data.JArr? && |data.items| > 0 && data.items[0].JArr? ==>
      (r == Ok(true) <==> JStr("model") in data.items[0].items && JStr("fields") in data.items[0].items) && r.Ok?
    ensures r.Err? <==> data.JArr? && |data.items| > 0 && !data.items[0].JObj? && !data.items[0].JArr? &&
                        !data.items[0].JStr?
  {
    if data.JArr? && |data.items| > 0 then
      var first := data.items[0];
      match PyIn("model", first)
      case Err(e) => Err(e)
      case Ok(hasModel) => if hasModel then PyIn("fields", first) else Ok(false)
    else Ok(false)
  }

  // ---------------------------------------------------------------- fixture format

  /** The fixture walk's state: the run so far and the map from question pk to created question. */
  datatype FixtureState = FixtureState(run: ImportRun, pks: map<Json, nat>)

  /** The fixture's module override: a truthy id naming an existing module replaces the default. */
  function ModuleOverride(modId: Json, modules: set<int>, defaultModule: int): (r: Result<int, ImportError>)
    ensures !Truthy(modId) ==> r == Ok(defaultModule)
    ensures modId.JNum? && modId.n != 0 ==> r == Ok(if modId.n in modules then modId.n else defaultModule)
  {
    if !Truthy(modId) then Ok(defaultModule)
    else if modId.JNum? then Ok(if modId.n in modules then modId.n else defaultModule)
    else Err(UnsupportedValue)
  }

  /** One fixture object; a state that already failed is left as it is. */
  function FixtureStep(st: FixtureState, obj: Json, modules: set<int>, defaultModule: int): FixtureState {
    if st.run.failure.Some? then st
    else if !obj.JObj? then FixtureState(Fail(st.run, NoGetMethod), st.pks)
    else
      var model := Get(obj.fields, "model", JNull);
      var fields := Get(obj.fields, "fields", JObj(map[]));
      if model == JStr("academy.question") then
        if !fields.JObj? then FixtureState(Fail(st.run, NoGetMethod), st.pks)
        else match ModuleOverride(Get(fields.fields, "module", JNull), modules, defaultModule)
          case Err(e) => FixtureState(Fail(st.run, e), st.pks)
          case Ok(moduleId) =>
            var q := NewQuestion(moduleId, Get(fields.fields, "text", JStr("")), Get(fields.fields, "order", JNum(1)),
                                 Get(fields.fields, "explanation", JStr("")));
            var run := st.run.(questions := st.run.questions + [q]);
            if "pk" !in obj.fields then FixtureState(Fail(run, MissingKey("pk")), st.pks)
            else if !Hashable(obj.fields["pk"]) then FixtureState(Fail(run, Unhashable), st.pks)
            else FixtureState(run, st.pks[obj.fields["pk"] := |st.run.questions|])
      else if model == JStr("academy.choice") then
        if !fields.JObj? then FixtureState(Fail(st.run, NoGetMethod), st.pks)
        else
          var qpk := Get(fields.fields, "question", JNull);
          if !Hashable(qpk) then FixtureState(Fail(st.run, Unhashable), st.pks)
          else if qpk !in st.pks then FixtureState(st.run.(skipped := st.run.skipped + 1), st.pks)
          else
            var c := NewChoice(st.pks[qpk], Get(fields.fields, "text", JStr("")), Get(fields.fields, "is_correct", JBool(false)));
            FixtureState(st.run.(choices := st.run.choices + [c]), st.pks)
      else st
  }

  /** The fixture walk over `items`, from an empty run and an empty pk map. */
  function FixtureRun(items: seq<Json>, modules: set<int>, defaultModule: int): FixtureState
    decreases |items|
  {
    if |items| == 0 then FixtureState(Fresh, map[])
    else FixtureStep(FixtureRun(items[..|items| - 1], modules, defaultModule), items[|items| - 1], modules, defaultModule)
  }

  /** Once the walk has failed, later items change nothing. */
  lemma {:induction false} FixtureFailureSticks(items: seq<Json>, i: nat, modules: set<int>, defaultModule: int)
    requires i <= |items|
    requires FixtureRun(items[..i], modules, defaultModule).run.failure.Some?
    ensures FixtureRun(items, modules, defaultModule) == FixtureRun(items[..i], modules, defaultModule)
    decreases |items| - i
  {
    if i < |items| {
      assert items[..i + 1][..i] == items[..i];
      FixtureFailureSticks(items, i + 1, modules, defaultModule);
    } else {
      assert items[..i] == items;
    }
  }

  predicate IsModelEntry(v: Json, model: string) {
    v.JObj? && Get(v.fields, "model", JNull) == JStr(model)
  }

  /** The "fields" object of a fixture entry. */
  function FieldsOf(v: Json): map<string, Json>
    requires v.JObj?
  {
    var f := Get(v.fields, "fields", JObj(map[]));
    if f.JObj? then f.fields else map[]
  }

  /** The pks of the question entries among `items`. */
  function QuestionPks(items: seq<Json>): set<Json>
    decreases |items|
  {
    if |items| == 0 then {}
    else
      var last := items[|items| - 1];
      QuestionPks(items[..|items| - 1]) +
      (if IsModelEntry(last, "academy.question") && "pk" in last.fields then {last.fields["pk"]} else {})
  }

  function CountQuestionEntries(items: seq<Json>): nat
    decreases |items|
  {
    if |items| == 0 then 0
    else CountQuestionEntries(items[..|items| - 1]) + (if IsModelEntry(items[|items| - 1], "academy.question") then 1 else 0)
  }

  function CountChoiceEntries(items: seq<Json>): nat
    decreases |items|
  {
    if |items| == 0 then 0
    else CountChoiceEntries(items[..|items| - 1]) + (if IsModelEntry(items[|items| - 1], "academy.choice") then 1 else 0)
  }

  /** Choice entries whose question pk is not the pk of an earlier question entry. */
  function CountOrphans(items: seq<Json>): nat
    decreases |items|
  {
    if |items| == 0 then 0
    else
      var last := items[|items| - 1];
      CountOrphans(items[..|items| - 1]) +
      (if IsModelEntry(last, "academy.choice") &&
          Get(FieldsOf(last), "question", JNull) !in QuestionPks(items[..|items| - 1]) then 1 else 0)
  }

  /**
   A fixture walk that ends without an exception has created one question per
   question entry; it has skipped exactly the choices whose question pk did not
   appear on an earlier question entry, even one appearing later, and created
   the other choices.
   */
  lemma {:induction false} FixtureCounts(items: seq<Json>, modules: set<int>, defaultModule: int)
    requires FixtureRun(items, modules, defaultModule).run.failure.None?
    ensures var st := FixtureRun(items, modules, defaultModule);
            && st.pks.Keys == QuestionPks(items)
            && |st.run.questions| == CountQuestionEntries(items)
            && st.run.skipped == CountOrphans(items)
            && |st.run.choices| + st.run.skipped == CountChoiceEntries(items)
            && (forall k :: k in st.pks ==> st.pks[k] < |st.run.questions|)
    decreases |items|
  {
    if |items| > 0 {
      var init := items[..|items| - 1];
      FixtureCounts(init, modules, defaultModule);
    }
  }

  /** A choice listed before its question is skipped: the question is created, the choice is not. */
  lemma ChoiceBeforeQuestion(modules: set<int>, defaultModule: int)
    ensures var choice := JObj(map["model" := JStr("academy.choice"), "fields" := JObj(map["question" := JNum(1)])]);
            var question := JObj(map["model" := JStr("academy.question"), "pk" := JNum(1), "fields" := JObj(map[])]);
            var st := FixtureRun([choice, question], modules, defaultModule);
            st.run.failure.None? && st.run.skipped == 1 && |st.run.questions| == 1 && st.run.choices == []
  {
    var choice := JObj(map["model" := JStr("academy.choice"), "fields" := JObj(map["question" := JNum(1)])]);
    var question := JObj(map["model" := JStr("academy.question"), "pk" := JNum(1), "fields" := JObj(map[])]);
    var items := [choice, question];
    assert items[..1] == [choice] && items[..1][..0] == [];
    assert Get(choice.fields, "model", JNull) == JStr("academy.choice");
    assert "academy.choice"[8] != "academy.question"[8];
    assert Get(choice.fields, "fields", JObj(map[])) == JObj(map["question" := JNum(1)]);
    var start := FixtureRun(items[..1][..0], modules, defaultModule);
    assert start == FixtureState(Fresh, map[]);
    var afterChoice := FixtureRun(items[..1], modules, defaultModule);
    assert afterChoice == FixtureStep(start, choice, modules, defaultModule);
    assert JStr("academy.choice") != JStr("academy.question");
    assert Hashable(JNum(1)) && JNum(1) !in start.pks;
    assert afterChoice == FixtureState(Fresh.(skipped := 1), map[]);
    assert Get(question.fields, "model", JNull) == JStr("academy.question");
    assert Get(question.fields, "fields", JObj(map[])) == JObj(map[]);
    assert "pk" in question.fields && question.fields["pk"] == JNum(1);
  }

  // ---------------------------------------------------------------- custom format

  /** The first module carrying `slug`, in the modules' default order, or the default. */
  function SlugModule(slugs: seq<(string, int)>, slug: string, defaultModule: int): (m: int)
    ensures m == defaultModule || exists i :: 0 <= i < |slugs| && slugs[i] == (slug, m)
    ensures (forall i :: 0 <= i < |slugs| ==> slugs[i].0 != slug) ==> m == defaultModule
    ensures forall i :: 0 <= i < |slugs| && slugs[i].0 == slug && (forall j :: 0 <= j < i ==> slugs[j].0 != slug) ==>
      m == slugs[i].1
  {
    if |slugs| == 0 then defaultModule
    else if slugs[0].0 == slug then slugs[0].1
    else
      var m := SlugModule(slugs[1..], slug, defaultModule);
      assert forall i :: 1 <= i < |slugs| ==> slugs[i] == slugs[1..][i - 1];
      m
  }

  /** One inline choice of question `q`: it must be an object with "text". */
  function ChoiceStep(run: ImportRun, q: nat, ch: Json): ImportRun {
    if run.failure.Some? then run
    else if !ch.JObj? then Fail(run, NotSubscriptable)
    else if "text" !in ch.fields then Fail(run, MissingKey("text"))
    else run.(choices := run.choices + [NewChoice(q, ch.fields["text"], Get(ch.fields, "is_correct", JBool(false)))])
  }

  function AddChoices(run: ImportRun, q: nat, chs: seq<Json>): ImportRun
    decreases |chs|
  {
    if |chs| == 0 then run else ChoiceStep(AddChoices(run, q, chs[..|chs| - 1]), q, chs[|chs| - 1])
  }

  lemma {:induction false} AddChoicesFailureSticks(run: ImportRun, q: nat, chs: seq<Json>, i: nat)
    requires i <= |chs|
    requires AddChoices(run, q, chs[..i]).failure.Some?
    ensures AddChoices(run, q, chs) == AddChoices(run, q, chs[..i])
    decreases |chs| - i
  {
    if i < |chs| {
      assert chs[..i + 1][..i] == chs[..i];
      AddChoicesFailureSticks(run, q, chs, i + 1);
    } else {
      assert chs[..i] == chs;
    }
  }

  /** Adding choices creates no question, skips nothing and keeps the earlier choices. */
  lemma {:induction false} AddChoicesKeeps(run: ImportRun, q: nat, chs: seq<Json>)
    ensures var r := AddChoices(run, q, chs);
            r.questions == run.questions && r.skipped == run.skipped &&
            |r.choices| >= |run.choices| && r.choices[..|run.choices|] == run.choices
    ensures run.failure.None? && AddChoices(run, q, chs).failure.None? ==>
            |AddChoices(run, q, chs).choices| == |run.choices| + |chs|
    decreases |chs|
  {
    if |chs| > 0 {
      AddChoicesKeeps(run, q, chs[..|chs| - 1]);
    }
  }

  /**
   The values the loop `for ch in entry["choices"]` visits. A string yields its
   characters; an object yields its keys, which are strings, so a non-empty one
   fails at the first `ch["text"]`.
   */
  function ChoiceItems(v: Json): Result<seq<Json>, ImportError> {
    match v
    case JArr(items) => Ok(items)
    case JStr(s) => Ok(Chars(s))
    case JObj(fields) => if |fields| == 0 then Ok([]) else Err(NotSubscriptable)
    case _ => Err(NotIterable)
  }

  /** An entry with both "text" and "choices", in the sense of Python's `in`. */
  predicate IsComplete(entry: Json) {
    PyIn("text", entry) == Ok(true) && PyIn("choices", entry) == Ok(true)
  }

  /** One custom-format entry; a run that already failed is left as it is. */
  function CustomStep(run: ImportRun, entry: Json, slugs: seq<(string, int)>, defaultModule: int): ImportRun {
    if run.failure.Some? then run
    else match PyIn("text", entry)
      case Err(e) => Fail(run, e)
      case Ok(hasText) =>
        if !hasText then run.(skipped := run.skipped + 1)
        else match PyIn("choices", entry)
          case Err(e) => Fail(run, e)
          case Ok(hasChoices) =>
            if !hasChoices then run.(skipped := run.skipped + 1)
            else if !entry.JObj? then Fail(run, NoGetMethod)
            else
              var slug := Get(entry.fields, "module_slug", JNull);
              if Truthy(slug) && !slug.JStr? then Fail(run, UnsupportedValue)
              else
                var moduleId := if Truthy(slug) then SlugModule(slugs, slug.s, defaultModule) else defaultModule;
                var q := NewQuestion(moduleId, entry.fields["text"], Get(entry.fields, "order", JNum(1)),
                                     Get(entry.fields, "explanation", JStr("")));
                var withQuestion := run.(questions := run.questions + [q]);
                match ChoiceItems(entry.fields["choices"])
                case Err(e) => Fail(withQuestion, e)
                case Ok(chs) => AddChoices(withQuestion, |run.questions|, chs)
  }

  function CustomRun(entries: seq<Json>, slugs: seq<(string, int)>, defaultModule: int): ImportRun
    decreases |entries|
  {
    if |entries| == 0 then Fresh
    else CustomStep(CustomRun(entries[..|entries| - 1], slugs, defaultModule), entries[|entries| - 1], slugs, defaultModule)
  }

  lemma {:induction false} CustomFailureSticks(entries: seq<Json>, i: nat, slugs: seq<(string, int)>, defaultModule: int)
    requires i <= |entries|
    requires CustomRun(entries[..i], slugs, defaultModule).failure.Some?
    ensures CustomRun(entries, slugs, defaultModule) == CustomRun(entries[..i], slugs, defaultModule)
    decreases |entries| - i
  {
    if i < |entries| {
      assert entries[..i + 1][..i] == entries[..i];
      CustomFailureSticks(entries, i + 1, slugs, defaultModule);
    } else {
      assert entries[..i] == entries;
    }
  }

  function CountIncomplete(entries: seq<Json>): nat
    decreases |entries|
  {
    if |entries| == 0 then 0
    else CountIncomplete(entries[..|entries| - 1]) + (if IsComplete(entries[|entries| - 1]) then 0 else 1)
  }

  /**
   A custom-format walk that ends without an exception has skipped exactly the
   entries lacking "text" or "choices" and created one question for each of the
   others.
   */
  lemma {:induction false} CustomCounts(entries: seq<Json>, slugs: seq<(string, int)>, defaultModule: int)
    requires CustomRun(entries, slugs, defaultModule).failure.None?
    ensures CustomRun(entries, slugs, defaultModule).skipped == CountIncomplete(entries)
    ensures |CustomRun(entries, slugs, defaultModule).questions| + CountIncomplete(entries) == |entries|
    decreases |entries|
  {
    if |entries| > 0 {
      var init := entries[..|entries| - 1];
      var last := entries[|entries| - 1];
      CustomFailureSticksBack(init, last, slugs, defaultModule);
      CustomCounts(init, slugs, defaultModule);
      var run := CustomRun(init, slugs, defaultModule);
      if IsComplete(last) && last.JObj? {
        var slug := Get(last.fields, "module_slug", JNull);
        if !(Truthy(slug) && !slug.JStr?) {
          var moduleId := if Truthy(slug) then SlugModule(slugs, slug.s, defaultModule) else defaultModule;
          var q := NewQuestion(moduleId, last.fields["text"], Get(last.fields, "order", JNum(1)),
                               Get(last.fields, "explanation", JStr("")));
          var withQuestion := run.(questions := run.questions + [q]);
          match ChoiceItems(last.fields["choices"])
          case Err(e) =>
          case Ok(chs) => AddChoicesKeeps(withQuestion, |run.questions|, chs);
        }
      }
    }
  }

  /** A walk that succeeds succeeded on every prefix. */
  lemma CustomFailureSticksBack(init: seq<Json>, last: Json, slugs: seq<(string, int)>, defaultModule: int)
    requires CustomStep(CustomRun(init, slugs, defaultModule), last, slugs, defaultModule).failure.None?
    ensures CustomRun(init, slugs, defaultModule).failure.None?
  {
  }

  /**
   The entries the custom-format loop visits. A list yields its items and a
   string its characters (each lacks "text", so each is skipped).
   */
  function CustomEntries(data: Json): Result<seq<Json>, ImportError>
    requires !data.JObj?
  {
    match data
    case JArr(items) => Ok(items)
    case JStr(s) => Ok(Chars(s))
    case _ => Err(NotIterable)
  }

  /** Some key of an object contains both "text" and "choices", so `.get` is called on a string. */
  predicate SomeKeyLooksComplete(fields: map<string, Json>) {
    exists k :: k in fields && Occurs(k, "text") && Occurs(k, "choices")
  }

  /**
   The import: the target module must exist; the format is detected; the
   matching walk runs. A top-level object is walked key by key in the custom
   format: every key is skipped unless one contains both words.
   */
  function Import(data: Json, defaultModule: int, modules: set<int>, slugs: seq<(string, int)>): ImportRun {
    if defaultModule !in modules then Fail(Fresh, ModuleNotFound)
    else match FixtureFormat(data)
      case Err(e) => Fail(Fresh, e)
      case Ok(fixture) =>
        if fixture then FixtureRun(data.items, modules, defaultModule).run
        else if data.JObj? then
          if SomeKeyLooksComplete(data.fields) then Fail(Fresh, NoGetMethod)
          else Fresh.(skipped := |data.fields|)
        else match CustomEntries(data)
          case Err(e) => Fail(Fresh, e)
          case Ok(entries) => CustomRun(entries, slugs, defaultModule)
  }

  // ---------------------------------------------------------------- the import loops

  /** The fixture loop: one pass over the list with the pk map and the counters. */
  method ImportFixture(items: seq<Json>, modules: set<int>, defaultModule: int) returns (run: ImportRun)
    ensures run == FixtureRun(items, modules, defaultModule).run
  {
    var questions: seq<NewQuestion> := [];
    var choices: seq<NewChoice> := [];
    var skipped := 0;
    var questionMap: map<Json, nat> := map[];
    var failure: Option<ImportError> := None;
    var i := 0;
    while i < |items| && failure.None?
      invariant i <= |items|
      invariant FixtureRun(items[..i], modules, defaultModule) ==
                FixtureState(ImportRun(questions, choices, skipped, failure), questionMap)
    {
      var obj := items[i];
      assert items[..i + 1][..i] == items[..i];
      if !obj.JObj? {
        failure := Some(NoGetMethod);
      } else {
        var model := Get(obj.fields, "model", JNull);
        var fields := Get(obj.fields, "fields", JObj(map[]));
        if model == JStr("academy.question") {
          if !fields.JObj? {
            failure := Some(NoGetMethod);
          } else {
            var moduleId := defaultModule;
            var modId := Get(fields.fields, "module", JNull);
            if Truthy(modId) {
              if modId.JNum? {
                if modId.n in modules {
                  moduleId := modId.n;
                }
              } else {
                failure := Some(UnsupportedValue);
              }
            }
            if failure.None? {
              var q := NewQuestion(moduleId, Get(fields.fields, "text", JStr("")), Get(fields.fields, "order", JNum(1)),
                                   Get(fields.fields, "explanation", JStr("")));
              questions := questions + [q];
              if "pk" !in obj.fields {
                failure := Some(MissingKey("pk"));
              } else if !Hashable(obj.fields["pk"]) {
                failure := Some(Unhashable);
              } else {
                questionMap := questionMap[obj.fields["pk"] := |questions| - 1];
              }
            }
          }
        } else if model == JStr("academy.choice") {
          if !fields.JObj? {
            failure := Some(NoGetMethod);
          } else {
            var qpk := Get(fields.fields, "question", JNull);
            if !Hashable(qpk) {
              failure := Some(Unhashable);
            } else if qpk !in questionMap {
              skipped := skipped + 1;
            } else {
              var c := NewChoice(questionMap[qpk], Get(fields.fields, "text", JStr("")),
                                 Get(fields.fields, "is_correct", JBool(false)));
              choices := choices + [c];
            }
          }
        }
      }
      i := i + 1;
    }
    if failure.Some? {
      FixtureFailureSticks(items, i, modules, defaultModule);
    } else {
      assert items[..i] == items;
    }
    run := ImportRun(questions, choices, skipped, failure);
  }

  /** The inner loop over one entry's choices, for the question at position `q`. */
  method AppendChoices(start: ImportRun, q: nat, chs: seq<Json>) returns (run: ImportRun)
    requires start.failure.None?
    ensures run == AddChoices(start, q, chs)
  {
    var choices := start.choices;
    var failure: Option<ImportError> := None;
    var j := 0;
    while j < |chs| && failure.None?
      invariant j <= |chs|
      invariant AddChoices(start, q, chs[..j]) == start.(choices := choices, failure := failure)
    {
      var ch := chs[j];
      assert chs[..j + 1][..j] == chs[..j];
      if !ch.JObj? {
        failure := Some(NotSubscriptable);
      } else if "text" !in ch.fields {
        failure := Some(MissingKey("text"));
      } else {
        choices := choices + [NewChoice(q, ch.fields["text"], Get(ch.fields, "is_correct", JBool(false)))];
      }
      j := j + 1;
    }
    if failure.Some? {
      AddChoicesFailureSticks(start, q, chs, j);
    } else {
      assert chs[..j] == chs;
    }
    run := start.(choices := choices, failure := failure);
  }

  /** The custom-format loop: skip incomplete entries, create each question and then its choices. */
  method ImportCustom(entries: seq<Json>, slugs: seq<(string, int)>, defaultModule: int) returns (run: ImportRun)
    ensures run == CustomRun(entries, slugs, defaultModule)
  {
    run := Fresh;
    var i := 0;
    while i < |entries| && run.failure.None?
      invariant i <= |entries|
      invariant CustomRun(entries[..i], slugs, defaultModule) == run
    {
      var entry := entries[i];
      assert entries[..i + 1][..i] == entries[..i];
      var hasText := PyIn("text", entry);
      if hasText.Err? {
        run := Fail(run, hasText.error);
      } else if !hasText.value {
        run := run.(skipped := run.skipped + 1);
      } else {
        var hasChoices := PyIn("choices", entry);
        if hasChoices.Err? {
          run := Fail(run, hasChoices.error);
        } else if !hasChoices.value {
          run := run.(skipped := run.skipped + 1);
        } else if !entry.JObj? {
          run := Fail(run, NoGetMethod);
        } else {
          var moduleId := defaultModule;
          var slug := Get(entry.fields, "module_slug", JNull);
          if Truthy(slug) && !slug.JStr? {
            run := Fail(run, UnsupportedValue);
          } else {
            if Truthy(slug) {
              moduleId := SlugModule(slugs, slug.s, defaultModule);
            }
            var q := NewQuestion(moduleId, entry.fields["text"], Get(entry.fields, "order", JNum(1)),
                                 Get(entry.fields, "explanation", JStr("")));
            var position := |run.questions|;
            run := run.(questions := run.questions + [q]);
            var chs := ChoiceItems(entry.fields["choices"]);
            if chs.Err? {
              run := Fail(run, chs.error);
            } else {
              run := AppendChoices(run, position, chs.value);
            }
          }
        }
      }
      i := i + 1;
    }
    if run.failure.Some? {
      CustomFailureSticks(entries, i, slugs, defaultModule);
    } else {
      assert entries[..i] == entries;
    }
  }

  /**
   The import request: the target module is looked up, the format detected and
   the matching loop run. An unknown module imports nothing.
   */
  method ImportQuestions(data: Json, defaultModule: int, modules: set<int>, slugs: seq<(string, int)>)
    returns (run: ImportRun)
    ensures run == Import(data, defaultModule, modules, slugs)
    ensures defaultModule !in modules ==> run == ImportRun([], [], 0, Some(ModuleNotFound))
    ensures run.failure.None? && data.JArr? && |data.items| > 0 && data.items[0].JObj? &&
            "model" in data.items[0].fields && "fields" in data.items[0].fields ==>
      run.skipped == CountOrphans(data.items) && |run.questions| == CountQuestionEntries(data.items)
    ensures run.failure.None? && data.JArr? && FixtureFormat(data) == Ok(false) ==>
      run.skipped == CountIncomplete(data.items) && |run.questions| + run.skipped == |data.items|
  {
    if defaultModule !in modules {
      return Fail(Fresh, ModuleNotFound);
    }
    var fixture := FixtureFormat(data);
    if fixture.Err? {
      return Fail(Fresh, fixture.error);
    }
    if fixture.value {
      run := ImportFixture(data.items, modules, defaultModule);
      if run.failure.None? {
        FixtureCounts(data.items, modules, defaultModule);
      }
    } else if data.JObj? {
      if exists k :: k in data.fields && Occurs(k, "text") && Occurs(k, "choices") {
        run := Fail(Fresh, NoGetMethod);
      } else {
        run := Fresh.(skipped := |data.fields|);
      }
    } else {
      var entries := CustomEntries(data);
      if entries.Err? {
        run := Fail(Fresh, entries.error);
      } else {
        run := ImportCustom(entries.value, slugs, defaultModule);
        if run.failure.None? {
          CustomCounts(entries.value, slugs, defaultModule);
        }
      }
    }
  }
}
