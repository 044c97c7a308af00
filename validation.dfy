/**
 * The two structural checks of the site generator: `validateEntry`, which
 * judges an index entry (index mode) or a quiz document (document mode, the
 * default), and `validateQnA`, a per-question check the program defines but
 * never calls.
 */
module Validation {
  import opened Wrappers
  import opened Js
  import opened JsString

  /** An index entry as the data model describes it: a display title and the name of a quiz file. */
  datatype IndexEntry = IndexEntry(title: string, file: string) {
    /** Both fields have non-whitespace content and the file name ends in `.json`. */
    predicate WellFormed() {
      !IsBlank(title) && !IsBlank(file) && EndsWith(file, ".json")
    }
  }

  /** The title and file of a JSON object whose `title` and `file` are strings. */
  function IndexEntryOf(v: Json): Option<IndexEntry> {
    var title, file := Prop(v, "title"), Prop(v, "file");
    if IsString(title) && IsString(file) then Some(IndexEntry(title.value.s, file.value.s)) else None
  }

  /** A quiz document as the data model describes it: a title and its list of questions. */
  datatype QuizDocument = QuizDocument(title: string, questions: seq<Json>) {
    /** The title has non-whitespace content and there is at least one question. */
    predicate WellFormed() {
      !IsBlank(title) && |questions| >= 1
    }
  }

  /** The title and questions of a JSON object whose `title` is a string and `questions` an array. */
  function QuizDocumentOf(v: Json): Option<QuizDocument> {
    var title, questions := Prop(v, "title"), Prop(v, "questions");
    if IsString(title) && IsArray(questions) then Some(QuizDocument(title.value.s, questions.value.items)) else None
  }

  /** `typeof p === 'string' && p.trim() !== ''`. */
  predicate IsFilledString(p: Option<Json>) {
    IsString(p) && Trim(p.value.s) != ""
  }

  /**
   * `validateEntry(entry, isIndexEntry = false)`. Index mode accepts exactly
   * the objects whose title and file are strings with non-whitespace
   * content, the file ending in `.json`; document mode accepts exactly the
   * objects whose title is such a string and whose `questions` is a
   * non-empty array. Null, primitives and arrays are rejected in both modes.
   */
  function ValidateEntry(entry: Json, isIndexEntry: bool := false): (r: bool)
    ensures r ==> entry.JObj?
    ensures isIndexEntry ==>
              (r <==> IndexEntryOf(entry).Some? && IndexEntryOf(entry).value.WellFormed())
    ensures !isIndexEntry ==>
              (r <==> QuizDocumentOf(entry).Some? && QuizDocumentOf(entry).value.WellFormed())
  {
    if !IsObject(entry) then
      false
    else if isIndexEntry then
      var title, file := Prop(entry, "title"), Prop(entry, "file");
      !(!IsFilledString(title) || !IsFilledString(file) || !EndsWith(file.value.s, ".json"))
    else
      var title, questions := Prop(entry, "title"), Prop(entry, "questions");
      !(!IsFilledString(title) || !IsArray(questions) || |questions.value.items| == 0)
  }

  /**
   * The title and file name of an entry that passed index validation: all
   * that the later stages read of it.
   */
  function EntryOf(entry: Json): (e: IndexEntry)
    requires ValidateEntry(entry, true)
    ensures IndexEntryOf(entry) == Some(e) && e.WellFormed()
  {
    IndexEntry(Prop(entry, "title").value.s, Prop(entry, "file").value.s)
  }

  /** The questions of a document that passed document validation: never empty. */
  function QuestionsOf(content: Json): (qs: seq<Json>)
    requires ValidateEntry(content)
    ensures QuizDocumentOf(content).Some? && QuizDocumentOf(content).value.questions == qs
    ensures |qs| >= 1
  {
    Prop(content, "questions").value.items
  }

  /** A file name ending in `.json` is never blank, so the blank-file test of index mode is implied by the suffix test. */
  lemma JsonSuffixIsFilled(f: string)
    requires EndsWith(f, ".json")
    ensures !IsBlank(f)
  {
    assert f[|f| - 5] == '.';
  }

  /** `typeof a.answer === 'string'` for an element that is not null. */
  predicate HasStringAnswer(a: Json) {
    IsString(Prop(a, "answer"))
  }

  /**
   * `answers.every(a => typeof a.answer === 'string')`: stops at the first
   * element that fails; reading `.answer` of a null element throws.
   */
  function EveryAnswerIsString(answers: seq<Json>): (r: Fallible<bool>)
    ensures r == Ok(true) <==> forall i :: 0 <= i < |answers| ==> HasStringAnswer(answers[i])
    ensures r.TypeError? <==>
              exists i :: 0 <= i < |answers| && answers[i].JNull?
                          && forall j :: 0 <= j < i ==> HasStringAnswer(answers[j])
  {
    if answers == [] then Ok(true)
    else if answers[0].JNull? then TypeError
    else if !HasStringAnswer(answers[0]) then Ok(false)
    else
      var r := EveryAnswerIsString(answers[1..]);
      assert forall i :: 1 <= i < |answers| ==> answers[i] == answers[1..][i - 1];
      r
  }

  /** What `validateQnA` accepts: an object with a question of non-whitespace content and an array of answers that all have a string `answer`. */
  predicate IsWellFormedQnA(entry: Json) {
    entry.JObj?
    && IsString(Prop(entry, "question")) && !IsBlank(Prop(entry, "question").value.s)
    && IsArray(Prop(entry, "answers"))
    && forall i :: 0 <= i < |Prop(entry, "answers").value.items| ==>
                   HasStringAnswer(Prop(entry, "answers").value.items[i])
  }

  /**
   * `validateQnA(entry)`. Both halves of the test are evaluated before the
   * result is combined, so a null answer throws even when the question is
   * invalid. An empty `answers` array passes.
   */
  function ValidateQnA(entry: Json): (r: Fallible<bool>)
    ensures r == Ok(true) <==> IsWellFormedQnA(entry)
    ensures r.TypeError? <==>
              IsObject(entry) && IsArray(Prop(entry, "answers"))
              && EveryAnswerIsString(Prop(entry, "answers").value.items).TypeError?
  {
    if IsObject(entry) then
      var question, answers := Prop(entry, "question"), Prop(entry, "answers");
      var hasValidQuestion := IsFilledString(question);
      if !IsArray(answers) then Ok(false)
      else
        match EveryAnswerIsString(answers.value.items)
        case TypeError => TypeError
        case Ok(hasValidAnswers) => Ok(hasValidQuestion && hasValidAnswers)
    else
      Ok(false)
  }

  /** An object whose `title` is missing, not a string, or only whitespace is rejected in both modes. */
  lemma RejectsBlankTitle(entry: Json, isIndexEntry: bool)
    requires !IsString(Prop(entry, "title")) || IsBlank(Prop(entry, "title").value.s)
    ensures !ValidateEntry(entry, isIndexEntry)
  {
  }

  /** An index entry whose `file` does not end in `.json` is rejected, whatever its title. */
  lemma RejectsNonJsonFile(entry: Json)
    requires IsString(Prop(entry, "file")) && !EndsWith(Prop(entry, "file").value.s, ".json")
    ensures !ValidateEntry(entry, true)
  {
  }

  /** An object with a non-blank string `title` and a string `file` ending in `.json` is an index entry. */
  lemma AcceptsIndexEntry(fields: map<string, Json>, title: string, file: string)
    requires "title" in fields && fields["title"] == JStr(title) && !IsBlank(title)
    requires "file" in fields && fields["file"] == JStr(file) && EndsWith(file, ".json")
    ensures ValidateEntry(JObj(fields), true)
    ensures EntryOf(JObj(fields)) == IndexEntry(title, file)
  {
    JsonSuffixIsFilled(file);
  }

  /** An object with a non-blank string `title` and a non-empty `questions` array is a quiz document. */
  lemma AcceptsDocument(fields: map<string, Json>, title: string, questions: seq<Json>)
    requires "title" in fields && fields["title"] == JStr(title) && !IsBlank(title)
    requires "questions" in fields && fields["questions"] == JArr(questions) && |questions| >= 1
    ensures ValidateEntry(JObj(fields)) && QuestionsOf(JObj(fields)) == questions
  {
  }

  /** The entry of the index-mode test in both test files is accepted. */
  lemma AcceptsSampleIndexEntry()
    ensures ValidateEntry(JObj(map["title" := JStr("Valid"), "file" := JStr("valid.json")]), true)
  {
    var e := JObj(map["title" := JStr("Valid"), "file" := JStr("valid.json")]);
    assert Prop(e, "title") == Some(JStr("Valid"));
    assert Prop(e, "file") == Some(JStr("valid.json"));
    assert !IsWhiteSpace("Valid"[0]) && !IsWhiteSpace("valid.json"[0]);
    assert "valid.json"[5..] == ".json";
  }

  /** A document whose `questions` is a string rather than an array is rejected. */
  lemma RejectsQuestionsThatAreNotAnArray()
    ensures !ValidateEntry(JObj(map["title" := JStr("Test"), "questions" := JStr("not-an-array")]))
  {
    var d := JObj(map["title" := JStr("Test"), "questions" := JStr("not-an-array")]);
    assert Prop(d, "questions") == Some(JStr("not-an-array"));
  }

  /** A document with an empty `questions` array and no title is rejected by document validation. */
  lemma RejectsEmptyQuestionList()
    ensures !ValidateEntry(JObj(map["questions" := JArr([])]))
  {
    assert Prop(JObj(map["questions" := JArr([])]), "title").None?;
  }
}
