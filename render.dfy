/**
 * The site renderer: `writeHtml`, which writes the index page with one link
 * per entry, and `createIndividualHtmlFiles`, which writes one page of
 * questions and answers per entry. The markup around the generated parts
 * is kept as constant strings (their indentation and line breaks are not
 * reproduced); what is generated is modelled exactly.
 */
module Render {
  import opened Wrappers
  import opened Js
  import opened JsString
  import opened Seqs
  import opened Validation
  import opened Loader

  /**
   * A draft of the program, given by the markup its index page puts before
   * and after the link list: the two drafts differ in nothing else.
   */
  datatype Draft = Draft(indexHead: string, indexTail: string)

  /** The draft in `src/lib/main.js`. */
  const LibDraft: Draft := Draft(
    "<!DOCTYPE html><html lang=\"is\" class=\"\"><head><meta charset=\"UTF-8\">"
    + "<meta name=\"viewport\" content=\"width=device-width, initial-scale=1\"><title>Verkefni 1</title>"
    + "<link rel=\"stylesheet\" href=\"styles.css\"><meta name=\"Forsíða\" content=\"Verkefni 1 í veff2, Forsíða\">"
    + "</head><body><div class=\"wrapper\"><header class=\"header\"><h1>Verkefni 1</h1></header>"
    + "<div class=\"intro\"><p>Þetta er nokkurs konar æfing í hugtökum sem varðar vefforritun. Gangi þér vel :D. </p></div>"
    + "<ul class=\"entry-options\">",
    "</ul></div></body></html>")

  /** The draft in the top-level `main.js`. */
  const RootDraft: Draft := Draft(
    "<!DOCTYPE html><html lang=\"is\"><head><meta charset=\"UTF-8\"><title>Verkefni 1</title></head>"
    + "<body><h1>Verkefni 1</h1><ul>",
    "</ul></body></html>")

  /** `dist/index.html`. */
  const IndexHtmlPath: string := "dist/index.html"

  /** `file.replace('.json', '.html')`: the first `.json` becomes `.html`; it is not an extension swap. */
  function HtmlName(file: string): (r: string)
    ensures IndexOf(file, ".json").None? ==> r == file
    ensures IndexOf(file, ".json").Some? ==>
              var i := IndexOf(file, ".json").value;
              |r| == |file| && r[..i] == file[..i] && r[i..i + 5] == ".html" && r[i + 5..] == file[i + 5..]
  {
    var r := Replace(file, ".json", ".html");
    assert IndexOf(file, ".json").Some? ==>
             var i := IndexOf(file, ".json").value;
             r[..i] == file[..i] && r[i..i + 5] == ".html" && r[i + 5..] == file[i + 5..]
    by {
      if IndexOf(file, ".json").Some? {
        var i := IndexOf(file, ".json").value;
        assert r == file[..i] + ".html" + file[i + 5..];
      }
    }
    r
  }

  /** Where the page of an entry is written: `dist/` joined with its HTML name. */
  function PagePath(file: string): string {
    "dist/" + HtmlName(file)
  }

  /** Only the first `.json` is replaced. */
  lemma HtmlNameOfDoubleSuffix()
    ensures HtmlName("x.json.json") == "x.html.json"
  {
    var s := "x.json.json";
    assert s[1..6] == ".json";
    assert OccursAt(s, ".json", 1);
    assert s[0..5][0] == 'x';
    assert !OccursAt(s, ".json", 0);
    assert IndexOf(s, ".json") == Some(1);
    assert s[..1] == "x" && s[6..] == ".json";
  }

  /** Two different file names can share an HTML name, and so a page path. */
  lemma HtmlNameCollides()
    ensures HtmlName("q.json.html") == HtmlName("q.html.json") == "q.html.html"
  {
    HtmlNameOfFirst();
    HtmlNameOfSecond();
  }

  lemma HtmlNameOfFirst()
    ensures HtmlName("q.json.html") == "q.html.html"
  {
    var s := "q.json.html";
    assert s[1..6] == ".json";
    IndexOfFromSkip(s, ".json", 0);
    HtmlNameSplice(s, 1);
    assert s[..1] == "q" && s[6..] == ".html";
  }

  lemma HtmlNameOfSecond()
    ensures HtmlName("q.html.json") == "q.html.html"
  {
    var t := "q.html.json";
    assert t[6..11] == ".json";
    assert IndexOfFrom(t, ".json", 6) == Some(6);
    IndexOfFromSkip(t, ".json", 5);
    IndexOfFromSkip(t, ".json", 4);
    IndexOfFromSkip(t, ".json", 3);
    IndexOfFromSkip(t, ".json", 2);
    assert t[1..6] == ".html";
    assert IndexOfFrom(t, ".json", 1) == IndexOfFrom(t, ".json", 2);
    IndexOfFromSkip(t, ".json", 0);
    HtmlNameSplice(t, 6);
    assert t[..6] == "q.html" && t[11..] == "";
  }

  /** With the first ".json" at `i`, the HTML name puts ".html" in its place. */
  lemma HtmlNameSplice(file: string, i: nat)
    requires IndexOf(file, ".json") == Some(i)
    ensures HtmlName(file) == file[..i] + ".html" + file[i + 5..]
  {
    var r := HtmlName(file);
    assert r == r[..i] + r[i..i + 5] + r[i + 5..];
  }

  /** A character absent from the file name is absent from its HTML name. */
  lemma HtmlNameKeepsOut(file: string, c: char)
    requires c !in file && c !in ".html"
    ensures c !in HtmlName(file)
  {
    match IndexOf(file, ".json")
    case None =>
    case Some(i) =>
      assert forall k :: 0 <= k < i ==> file[..i][k] == file[k];
      assert forall k :: i + 5 <= k < |file| ==> file[i + 5..][k - i - 5] == file[k];
  }

  /** The only file name whose page would land on the index page is `index.json`. */
  lemma {:induction false} OnlyIndexJsonNamesIndexHtml(file: string)
    requires EndsWith(file, ".json")
    requires PagePath(file) == IndexHtmlPath
    ensures file == "index.json"
  {
    EndsWithIsFound(file, ".json");
    IndexPagePathName(file);
    var i := IndexOf(file, ".json").value;
    IndexNameSuffixAtFive(file, i);
    var name := HtmlName(file);
    assert file[..5] == name[..5] == "index";
    assert file[5..] == ".json";
    assert file == file[..5] + file[5..];
  }

  /** A page path at the index page means the HTML name `index.html`. */
  lemma IndexPagePathName(file: string)
    requires PagePath(file) == IndexHtmlPath
    ensures HtmlName(file) == "index.html"
  {
    DistNameOfIndex(HtmlName(file));
  }

  lemma DistNameOfIndex(name: string)
    requires "dist/" + name == IndexHtmlPath
    ensures name == "index.html"
  {
    assert IndexHtmlPath == "dist/" + "index.html";
    AppendCancel("dist/", name, "index.html");
  }

  /** In a file name whose HTML name is `index.html`, the first `.json` sits at position 5, the only dot of `index.html`. */
  lemma IndexNameSuffixAtFive(file: string, i: nat)
    requires IndexOf(file, ".json") == Some(i) && HtmlName(file) == "index.html"
    ensures i == 5 && |file| == 10
  {
    var name := HtmlName(file);
    assert name[i..i + 5] == ".html";
    assert name[i] == '.';
    assert name[0] == 'i' && name[1] == 'n' && name[2] == 'd' && name[3] == 'e' && name[4] == 'x';
  }

  /** One link of the index page: `<li><a href="H">T</a></li>` with `H` the HTML name of the file and `T` the title. */
  function Link(entry: IndexEntry): (r: string)
    ensures StartsWith(r, "<li><a href=\"" + HtmlName(entry.file) + "\">")
    ensures EndsWith(r, entry.title + "</a></li>")
    ensures |r| == |"<li><a href=\"" + HtmlName(entry.file) + "\">"| + |entry.title + "</a></li>"|
  {
    var head := "<li><a href=\"" + HtmlName(entry.file) + "\">";
    var tail := entry.title + "</a></li>";
    var r := head + tail;
    assert r[..|head|] == head;
    assert r[|head|..] == tail;
    r
  }

  /** The links of all entries, in order, joined by a newline: empty exactly when there are no entries, and starting with the first entry's link. */
  function LinkList(entries: seq<IndexEntry>): (r: string)
    ensures r == "" <==> entries == []
    ensures entries != [] ==> StartsWith(r, Link(entries[0]))
    ensures |entries| == 1 ==> r == Link(entries[0])
  {
    var links := Map(Link, entries);
    var r := Join(links, "\n");
    assert entries != [] ==> StartsWith(r, Link(entries[0])) by {
      if |entries| >= 2 {
        assert r == links[0] + "\n" + Join(links[1..], "\n");
        assert r[..|links[0]|] == links[0];
      } else if |entries| == 1 {
        assert r[..|r|] == r;
      }
    }
    r
  }

  /** The link list of two runs of entries is the first run's list, a newline, then the second's: the links follow the entries' order. */
  lemma LinkListAppend(a: seq<IndexEntry>, b: seq<IndexEntry>)
    requires a != [] && b != []
    ensures LinkList(a + b) == LinkList(a) + "\n" + LinkList(b)
  {
    MapAppend(Link, a, b);
    JoinAppend(Map(Link, a), Map(Link, b), "\n");
  }

  /** A link holds a newline only if its title or its file name does. */
  lemma LinkKeepsOutNewline(entry: IndexEntry)
    requires '\n' !in entry.title && '\n' !in entry.file
    ensures '\n' !in Link(entry)
  {
    LinkMarkupKeepsOutNewline(HtmlName(entry.file), entry.title);
    HtmlNameKeepsOut(entry.file, '\n');
  }

  /** The fixed markup of a link holds no newline. */
  lemma LinkMarkupKeepsOutNewline(h: string, t: string)
    requires '\n' !in h && '\n' !in t
    ensures '\n' !in "<li><a href=\"" + h + "\">" + t + "</a></li>"
  {
  }

  /** When no title or file name holds a newline, no link does. */
  lemma LinksKeepOutNewline(entries: seq<IndexEntry>)
    requires forall i :: 0 <= i < |entries| ==> '\n' !in entries[i].title && '\n' !in entries[i].file
    ensures forall i :: 0 <= i < |entries| ==> '\n' !in Map(Link, entries)[i]
  {
    forall i | 0 <= i < |entries| ensures '\n' !in Map(Link, entries)[i] {
      LinkKeepsOutNewline(entries[i]);
    }
  }

  /** When no title or file name holds a newline, the index list has exactly one line per entry, in order: the entry's link. */
  lemma LinkListOneLinePerEntry(entries: seq<IndexEntry>)
    requires |entries| >= 1
    requires forall i :: 0 <= i < |entries| ==> '\n' !in entries[i].title && '\n' !in entries[i].file
    ensures Split(LinkList(entries), '\n') == Map(Link, entries)
  {
    var links := Map(Link, entries);
    LinksKeepOutNewline(entries);
    SplitJoin(links, '\n');
    assert LinkList(entries) == Join(links, ['\n']);
  }

  /** The index page of a list of entries. */
  function IndexHtml(draft: Draft, entries: seq<IndexEntry>): string {
    draft.indexHead + LinkList(entries) + draft.indexTail
  }

  /** `writeHtml(data)`: writes the index page; a failed write is reported and the run goes on. */
  method WriteHtml(disk: Disk, draft: Draft, entries: seq<IndexEntry>) returns (ok: bool)
    modifies disk
    ensures ok <==> IndexHtmlPath !in disk.unwritable
    ensures disk.dist == if ok then old(disk.dist)[IndexHtmlPath := IndexHtml(draft, entries)] else old(disk.dist)
  {
    var html := LinkList(entries);
    var htmlContent := draft.indexHead + html + draft.indexTail;
    ok := disk.WriteFile(IndexHtmlPath, htmlContent);
  }

  /** The answer filter: `answer` is a string and `correct` a boolean. */
  predicate IsKeptAnswer(a: Json) {
    IsString(Prop(a, "answer")) && IsBoolean(Prop(a, "correct"))
  }

  /** One kept answer, `<li>A (Correct)</li>` or `<li>A </li>`: the mark appears exactly when `correct` is true. */
  function AnswerItem(a: Json): (r: string)
    requires IsKeptAnswer(a)
    ensures StartsWith(r, "<li>" + Prop(a, "answer").value.s + " ")
    ensures EndsWith(r, " (Correct)</li>") <==> Prop(a, "correct") == Some(JBool(true))
    ensures EndsWith(r, "</li>")
    ensures |r| == |"<li>" + Prop(a, "answer").value.s + " "|
                   + (if Prop(a, "correct") == Some(JBool(true)) then |"(Correct)"| else 0) + |"</li>"|
  {
    var text := Prop(a, "answer").value.s;
    var mark := if Truthy(Prop(a, "correct").value) then "(Correct)" else "";
    var r := "<li>" + text + " " + mark + "</li>";
    assert r[..|"<li>" + text + " "|] == "<li>" + text + " ";
    assert mark == "" ==> r[|r| - 6] == ' ';
    assert mark != "" ==> r[|r| - 15..] == " (Correct)</li>";
    r
  }

  /**
   * `answers.filter(kept).map(item).join('')`: throws exactly when an answer
   * is null, and is empty exactly when no answer is kept.
   */
  function AnswersHtml(answers: seq<Json>): (r: Fallible<string>)
    ensures r.TypeError? <==> JNull in answers
    ensures r.Ok? ==> (r.value == "" <==> forall i :: 0 <= i < |answers| ==> !IsKeptAnswer(answers[i]))
  {
    if JNull in answers then TypeError
    else
      var kept := Filter(IsKeptAnswer, answers);
      var items := Map(AnswerItem, kept);
      ConcatEmpty(items);
      FilterEmpty(IsKeptAnswer, answers);
      assert forall i :: 0 <= i < |items| ==> items[i] != "" by {
        forall i | 0 <= i < |items| ensures items[i] != "" {
          assert StartsWith(items[i], "<li>" + Prop(kept[i], "answer").value.s + " ");
        }
      }
      Ok(Concat(items))
  }

  /** The kept answers are exactly the well-typed ones, in their original order. */
  lemma AnswersHtmlKeepsOrder(answers: seq<Json>)
    requires JNull !in answers
    ensures var kept := Filter(IsKeptAnswer, answers);
      AnswersHtml(answers) == Ok(Concat(Map(AnswerItem, kept)))
      && IsSubsequence(kept, answers)
      && (forall i :: 0 <= i < |answers| && IsKeptAnswer(answers[i]) ==> answers[i] in kept)
      && (forall i :: 0 <= i < |kept| ==> kept[i] in answers && IsKeptAnswer(kept[i]))
  {
    FilterIsSubsequence(IsKeptAnswer, answers);
  }

  /** The renderer's test of a question: a truthy string `question` and an array `answers`. A whitespace-only question passes. */
  predicate IsRenderableQuestion(q: Json) {
    var question := Prop(q, "question");
    TruthyProp(question) && IsString(question) && IsArray(Prop(q, "answers"))
  }

  /** The answers of a renderable question. */
  function AnswersOf(q: Json): seq<Json>
    requires IsRenderableQuestion(q)
  {
    Prop(q, "answers").value.items
  }

  /**
   * The block of one question. A question that fails the renderer's test
   * contributes the empty string; a renderable one contributes
   * `<div><h2>Q</h2><ul>…</ul></div>`. A null question, or a null answer of a
   * renderable one, throws.
   */
  function QuestionBlock(q: Json): (r: Fallible<string>)
    ensures r.TypeError? <==> q.JNull? || (IsRenderableQuestion(q) && JNull in AnswersOf(q))
    ensures r.Ok? ==> (r.value == "" <==> !IsRenderableQuestion(q))
    ensures r.Ok? && IsRenderableQuestion(q) ==>
              StartsWith(r.value, "<div><h2>" + Prop(q, "question").value.s + "</h2><ul>")
    ensures r.Ok? && IsRenderableQuestion(q) ==>
              AnswersHtml(AnswersOf(q)).Ok?
              && EndsWith(r.value, AnswersHtml(AnswersOf(q)).value + "</ul></div>")
              && |r.value| == |"<div><h2>" + Prop(q, "question").value.s + "</h2><ul>"|
                              + |AnswersHtml(AnswersOf(q)).value| + |"</ul></div>"|
  {
    if q.JNull? then TypeError
    else if !IsRenderableQuestion(q) then Ok("")
    else
      match AnswersHtml(AnswersOf(q))
      case TypeError => TypeError
      case Ok(answersHtml) =>
        var head := "<div><h2>" + Prop(q, "question").value.s + "</h2><ul>";
        var tail := answersHtml + "</ul></div>";
        var block := head + tail;
        assert block[..|head|] == head;
        assert block[|head|..] == tail;
        Ok(block)
  }

  /**
   * A renderable question with no null answer yields its heading, then one
   * item per kept answer in their original order, then the closing tags.
   */
  lemma QuestionBlockHoldsKeptAnswers(q: Json)
    requires IsRenderableQuestion(q) && JNull !in AnswersOf(q)
    ensures var kept := Filter(IsKeptAnswer, AnswersOf(q));
      QuestionBlock(q) == Ok("<div><h2>" + Prop(q, "question").value.s + "</h2><ul>"
                             + Concat(Map(AnswerItem, kept)) + "</ul></div>")
  {
    AnswersHtmlKeepsOrder(AnswersOf(q));
    var head := "<div><h2>" + Prop(q, "question").value.s + "</h2><ul>";
    AppendAssoc(head, Concat(Map(AnswerItem, Filter(IsKeptAnswer, AnswersOf(q)))), "</ul></div>");
  }

  /** A renderable question with an empty `answers` array still yields its heading, over an empty list. */
  lemma EmptyAnswersKeepHeading(text: string)
    requires text != ""
    ensures QuestionBlock(JObj(map["question" := JStr(text), "answers" := JArr([])]))
            == Ok("<div><h2>" + text + "</h2><ul></ul></div>")
  {
    var q := JObj(map["question" := JStr(text), "answers" := JArr([])]);
    assert Prop(q, "question") == Some(JStr(text));
    assert Prop(q, "answers") == Some(JArr([]));
    assert IsRenderableQuestion(q);
    EmptyAnswersHtml();
    var head := "<div><h2>" + text + "</h2><ul>";
    assert head + ("" + "</ul></div>") == "<div><h2>" + text + "</h2><ul></ul></div>";
  }

  /** No answers render as nothing. */
  lemma EmptyAnswersHtml()
    ensures AnswersHtml([]) == Ok("")
  {
    var kept := Filter(IsKeptAnswer, []);
    assert kept == [];
    assert Map(AnswerItem, kept) == [];
    assert Concat([]) == "";
  }

  /** `questions.map(block).join('')`; the map throws as soon as one block throws. */
  function QuestionsHtml(qs: seq<Json>): (r: Fallible<string>)
    ensures r.TypeError? <==> exists i :: 0 <= i < |qs| && QuestionBlock(qs[i]).TypeError?
  {
    if qs == [] then Ok("")
    else
      match QuestionBlock(qs[0])
      case TypeError => TypeError
      case Ok(block) =>
        var rest := QuestionsHtml(qs[1..]);
        assert forall i :: 1 <= i < |qs| ==> qs[i] == qs[1..][i - 1];
        match rest
        case TypeError => TypeError
        case Ok(tail) => Ok(block + tail)
  }

  /** The blocks of two runs of questions, when neither throws, are the first run's blocks followed by the second's. */
  lemma {:induction false} QuestionsHtmlAppend(a: seq<Json>, b: seq<Json>)
    requires QuestionsHtml(a).Ok? && QuestionsHtml(b).Ok?
    ensures QuestionsHtml(a + b) == Ok(QuestionsHtml(a).value + QuestionsHtml(b).value)
  {
    if a == [] {
      assert a + b == b;
      assert "" + QuestionsHtml(b).value == QuestionsHtml(b).value;
    } else {
      QuestionsHtmlUncons(a);
      QuestionsHtmlAppend(a[1..], b);
      QuestionsHtmlAppendHead(a, b);
      AppendAssoc(QuestionBlock(a[0]).value, QuestionsHtml(a[1..]).value, QuestionsHtml(b).value);
    }
  }

  /** The blocks of `a + b` begin with the block of `a`'s first question. */
  lemma QuestionsHtmlAppendHead(a: seq<Json>, b: seq<Json>)
    requires a != [] && QuestionBlock(a[0]).Ok? && QuestionsHtml(a[1..] + b).Ok?
    ensures QuestionsHtml(a + b) == Ok(QuestionBlock(a[0]).value + QuestionsHtml(a[1..] + b).value)
  {
    assert (a + b)[0] == a[0];
    assert (a + b)[1..] == a[1..] + b;
  }

  /** A list that renders starts with a question that renders, followed by a rest that renders. */
  lemma QuestionsHtmlUncons(qs: seq<Json>)
    requires qs != [] && QuestionsHtml(qs).Ok?
    ensures QuestionBlock(qs[0]).Ok? && QuestionsHtml(qs[1..]).Ok?
    ensures QuestionsHtml(qs).value == QuestionBlock(qs[0]).value + QuestionsHtml(qs[1..]).value
  {
  }

  /** A non-null question that fails the renderer's test (say, one whose `answers` is a string) is dropped wherever it stands, and the other questions render as before. */
  lemma {:induction false} QuestionsHtmlSkipsUnrenderable(a: seq<Json>, q: Json, b: seq<Json>)
    requires !q.JNull? && !IsRenderableQuestion(q)
    ensures QuestionsHtml(a + [q] + b) == QuestionsHtml(a + b)
  {
    if a == [] {
      assert a + [q] + b == [q] + b;
      assert a + b == b;
      assert ([q] + b)[0] == q;
      assert ([q] + b)[1..] == b;
      var r := QuestionsHtml(b);
      if r.Ok? {
        assert "" + r.value == r.value;
      }
    } else {
      assert (a + [q] + b)[0] == a[0] && (a + b)[0] == a[0];
      assert (a + [q] + b)[1..] == a[1..] + [q] + b;
      assert (a + b)[1..] == a[1..] + b;
      QuestionsHtmlSkipsUnrenderable(a[1..], q, b);
    }
  }

  /** The question blocks are blank exactly when no question passes the renderer's test: every block that is emitted begins with `<`. */
  lemma {:induction false} QuestionsHtmlBlankIff(qs: seq<Json>)
    requires QuestionsHtml(qs).Ok?
    ensures IsBlank(QuestionsHtml(qs).value) <==> forall i :: 0 <= i < |qs| ==> !IsRenderableQuestion(qs[i])
  {
    if qs != [] {
      var block := QuestionBlock(qs[0]).value;
      var tail := QuestionsHtml(qs[1..]).value;
      QuestionsHtmlBlankIff(qs[1..]);
      BlankConcat(block, tail);
      if block != "" {
        assert block[0] == '<';
        assert !IsBlank(block);
      }
      assert forall i :: 1 <= i < |qs| ==> qs[i] == qs[1..][i - 1];
    }
  }

  /** The page of an entry: the entry's title as `<title>` and `<h1>`, then the question blocks. */
  function PageHtml(title: string, body: string): string {
    "<!DOCTYPE html><html lang=\"is\"><head><meta charset=\"UTF-8\"><title>" + title
    + "</title></head><body><h1>" + title + "</h1>" + body + "</body></html>"
  }

  /** What happened to one entry's page. */
  datatype PageOutcome =
    | Unusable                           // the content did not load or failed document validation
    | NothingToDisplay                   // no question passed the renderer's test
    | Crashed                            // a null question or answer made the task throw
    | Written(path: string, html: string)
    | WriteFailed(path: string)

  /**
   * The content of an entry's page when it loads and passes the checks made
   * before rendering. The checks after document validation (a truthy value,
   * a non-empty `questions` array) never reject anything it accepted.
   */
  function PageContent(files: map<string, Stored>, item: IndexEntry): (r: Option<Json>)
    ensures var content := Load(files, DataPath(item.file));
      r.Some? <==> content.Some? && ValidateEntry(content.value)
    ensures r.Some? ==> r == Load(files, DataPath(item.file))
  {
    var content := Load(files, DataPath(item.file));
    if content.None? || !Truthy(content.value) || !ValidateEntry(content.value)
       || !IsArray(Prop(content.value, "questions")) || |Prop(content.value, "questions").value.items| == 0
    then None
    else content
  }

  /** The page task of one entry, as a function of the input files. */
  function PageOutcomeOf(files: map<string, Stored>, unwritable: set<string>, item: IndexEntry): (r: PageOutcome)
    ensures r.Unusable? <==> PageContent(files, item).None?
    ensures (r.Written? || r.WriteFailed?) ==> r.path == PagePath(item.file)
    ensures r.Written? ==> r.path !in unwritable
    ensures r.WriteFailed? ==> r.path in unwritable
  {
    match PageContent(files, item)
    case None => Unusable
    case Some(content) =>
      match QuestionsHtml(QuestionsOf(content))
      case TypeError => Crashed
      case Ok(body) =>
        if Trim(body) == "" then NothingToDisplay
        else
          var path := PagePath(item.file);
          if path in unwritable then WriteFailed(path) else Written(path, PageHtml(item.title, body))
  }

  /**
   * A page is written exactly when its content loads, passes document
   * validation, has a question that passes the renderer's test, renders
   * without throwing, and its path can be written; it then lands at
   * `dist/<HTML name>` under the index entry's title.
   */
  lemma PageWrittenIff(files: map<string, Stored>, unwritable: set<string>, item: IndexEntry)
    ensures var content := Load(files, DataPath(item.file));
      PageOutcomeOf(files, unwritable, item).Written? <==>
        content.Some? && ValidateEntry(content.value)
        && (exists i :: 0 <= i < |QuestionsOf(content.value)| && IsRenderableQuestion(QuestionsOf(content.value)[i]))
        && QuestionsHtml(QuestionsOf(content.value)).Ok?
        && PagePath(item.file) !in unwritable
    ensures var o := PageOutcomeOf(files, unwritable, item);
      o.Written? ==>
        var body := QuestionsHtml(QuestionsOf(Load(files, DataPath(item.file)).value)).value;
        o.path == PagePath(item.file) && o.html == PageHtml(item.title, body)
  {
    var content := Load(files, DataPath(item.file));
    if content.Some? && ValidateEntry(content.value) && QuestionsHtml(QuestionsOf(content.value)).Ok? {
      QuestionsHtmlBlankIff(QuestionsOf(content.value));
    }
  }

  /** A written page sits at its entry's page path and comes from content that loaded and passed document validation. */
  lemma WrittenPageOrigin(files: map<string, Stored>, unwritable: set<string>, item: IndexEntry)
    ensures var o := PageOutcomeOf(files, unwritable, item);
      o.Written? ==>
        o.path == PagePath(item.file)
        && Load(files, DataPath(item.file)).Some? && ValidateEntry(Load(files, DataPath(item.file)).value)
  {
  }

  /**
   * A page task throws exactly when its content is usable and holds a null
   * question, or a renderable question with a null answer.
   */
  lemma PageCrashedIff(files: map<string, Stored>, unwritable: set<string>, item: IndexEntry)
    ensures PageOutcomeOf(files, unwritable, item).Crashed? <==>
              PageContent(files, item).Some? &&
              var qs := QuestionsOf(PageContent(files, item).value);
              exists i :: 0 <= i < |qs| && (qs[i].JNull? || (IsRenderableQuestion(qs[i]) && JNull in AnswersOf(qs[i])))
  {
    PageCrashedIffThrows(files, unwritable, item);
    if PageContent(files, item).Some? {
      QuestionsHtmlThrowsIff(QuestionsOf(PageContent(files, item).value));
    }
  }

  /** A page task throws exactly when its content is usable and its question blocks throw. */
  lemma PageCrashedIffThrows(files: map<string, Stored>, unwritable: set<string>, item: IndexEntry)
    ensures PageOutcomeOf(files, unwritable, item).Crashed? <==>
              PageContent(files, item).Some? && QuestionsHtml(QuestionsOf(PageContent(files, item).value)).TypeError?
  {
    var content := PageContent(files, item);
    if content.Some? {
      var qs := QuestionsOf(content.value);
      if QuestionsHtml(qs).Ok? {
        assert !PageOutcomeOf(files, unwritable, item).Crashed?;
      }
    }
  }

  /** The question blocks throw exactly when some question is null, or is renderable with a null answer. */
  lemma QuestionsHtmlThrowsIff(qs: seq<Json>)
    ensures QuestionsHtml(qs).TypeError? <==>
              exists i :: 0 <= i < |qs| && (qs[i].JNull? || (IsRenderableQuestion(qs[i]) && JNull in AnswersOf(qs[i])))
  {
    assert forall i :: 0 <= i < |qs| ==>
      (QuestionBlock(qs[i]).TypeError? <==> qs[i].JNull? || (IsRenderableQuestion(qs[i]) && JNull in AnswersOf(qs[i])));
  }

  /** A page whose content is usable and renders is skipped exactly when every question fails the renderer's test. */
  lemma PageSkippedIffNoRenderableQuestion(files: map<string, Stored>, unwritable: set<string>, item: IndexEntry)
    requires Load(files, DataPath(item.file)).Some?
    requires ValidateEntry(Load(files, DataPath(item.file)).value)
    requires QuestionsHtml(QuestionsOf(Load(files, DataPath(item.file)).value)).Ok?
    ensures PageOutcomeOf(files, unwritable, item) == NothingToDisplay <==>
              var qs := QuestionsOf(Load(files, DataPath(item.file)).value);
              forall i :: 0 <= i < |qs| ==> !IsRenderableQuestion(qs[i])
  {
    QuestionsHtmlBlankIff(QuestionsOf(Load(files, DataPath(item.file)).value));
  }

  /** `validateQnA` is stricter than the renderer: what it accepts, the renderer renders. */
  lemma QnAAcceptedIsRenderable(q: Json)
    requires ValidateQnA(q) == Ok(true)
    ensures IsRenderableQuestion(q)
  {
    assert Prop(q, "question").value.s != "";
  }

  /** A whitespace-only question is rejected by `validateQnA` yet still rendered, with its whitespace as the heading. */
  lemma WhitespaceQuestionIsRendered(text: string)
    requires text != "" && IsBlank(text)
    ensures var q := JObj(map["question" := JStr(text), "answers" := JArr([])]);
      ValidateQnA(q) == Ok(false) && QuestionBlock(q) == Ok("<div><h2>" + text + "</h2><ul></ul></div>")
  {
    var q := JObj(map["question" := JStr(text), "answers" := JArr([])]);
    assert Prop(q, "question") == Some(JStr(text));
    assert Prop(q, "answers") == Some(JArr([]));
    assert !IsFilledString(Prop(q, "question"));
    assert EveryAnswerIsString([]) == Ok(true);
    EmptyAnswersKeepHeading(text);
  }

  /** The page task of `createIndividualHtmlFiles` for one entry. */
  method RenderPage(disk: Disk, item: IndexEntry) returns (outcome: PageOutcome)
    modifies disk
    ensures outcome == PageOutcomeOf(disk.files, disk.unwritable, item)
    ensures disk.dist == if outcome.Written? then old(disk.dist)[outcome.path := outcome.html] else old(disk.dist)
  {
    var content := ReadJson(disk, DataPath(item.file));
    if content.None? || !Truthy(content.value) || !ValidateEntry(content.value)
       || !IsArray(Prop(content.value, "questions")) || |Prop(content.value, "questions").value.items| == 0
    {
      assert PageContent(disk.files, item).None?;
      return Unusable;
    }
    assert PageContent(disk.files, item) == content;
    var questionsHtml := QuestionsHtml(QuestionsOf(content.value));
    if questionsHtml.TypeError? {
      return Crashed;
    }
    if Trim(questionsHtml.value) == "" {
      return NothingToDisplay;
    }
    var htmlFilePath := PagePath(item.file);
    var htmlContent := PageHtml(item.title, questionsHtml.value);
    var ok := disk.WriteFile(htmlFilePath, htmlContent);
    outcome := if ok then Written(htmlFilePath, htmlContent) else WriteFailed(htmlFilePath);
  }

  /** The outcome of every entry's page task, in entry order. */
  function PageOutcomes(files: map<string, Stored>, unwritable: set<string>, items: seq<IndexEntry>): (r: seq<PageOutcome>)
    ensures |r| == |items|
    ensures forall i :: 0 <= i < |items| ==> r[i] == PageOutcomeOf(files, unwritable, items[i])
  {
    if items == [] then []
    else
      var init := items[..|items| - 1];
      assert forall i :: 0 <= i < |init| ==> init[i] == items[i];
      PageOutcomes(files, unwritable, init) + [PageOutcomeOf(files, unwritable, items[|items| - 1])]
  }

  /** The writes the page tasks made, in order: each comes from a written page. */
  function PageWrites(outcomes: seq<PageOutcome>): (ws: seq<(string, string)>)
    ensures forall j :: 0 <= j < |ws| ==> Written(ws[j].0, ws[j].1) in outcomes
  {
    if outcomes == [] then []
    else
      var init := outcomes[..|outcomes| - 1];
      var last := outcomes[|outcomes| - 1];
      var ws := PageWrites(init);
      assert forall o :: o in init ==> o in outcomes;
      ws + (if last.Written? then [(last.path, last.html)] else [])
  }

  /** A path no written page names receives no page write. */
  lemma PageWritesAvoid(outcomes: seq<PageOutcome>, path: string)
    requires forall i :: 0 <= i < |outcomes| && outcomes[i].Written? ==> outcomes[i].path != path
    ensures forall j :: 0 <= j < |PageWrites(outcomes)| ==> PageWrites(outcomes)[j].0 != path
  {
    var ws := PageWrites(outcomes);
    forall j | 0 <= j < |ws| ensures ws[j].0 != path {
      var k :| 0 <= k < |outcomes| && outcomes[k] == Written(ws[j].0, ws[j].1);
    }
  }

  /** When every written page names one path, every page write goes there. */
  lemma PageWritesAt(outcomes: seq<PageOutcome>, path: string)
    requires forall i :: 0 <= i < |outcomes| && outcomes[i].Written? ==> outcomes[i].path == path
    ensures forall j :: 0 <= j < |PageWrites(outcomes)| ==> PageWrites(outcomes)[j].0 == path
  {
    var ws := PageWrites(outcomes);
    forall j | 0 <= j < |ws| ensures ws[j].0 == path {
      var k :| 0 <= k < |outcomes| && outcomes[k] == Written(ws[j].0, ws[j].1);
    }
  }

  /** One more page task adds its write, if any, after the earlier ones. */
  lemma PageWritesSnoc(dist: map<string, string>, outcomes: seq<PageOutcome>, o: PageOutcome)
    ensures Overwrite(dist, PageWrites(outcomes + [o]))
            == if o.Written? then Overwrite(dist, PageWrites(outcomes))[o.path := o.html]
               else Overwrite(dist, PageWrites(outcomes))
  {
    assert (outcomes + [o])[..|outcomes|] == outcomes;
    var ws := PageWrites(outcomes);
    if o.Written? {
      assert PageWrites(outcomes + [o]) == ws + [(o.path, o.html)];
      assert (ws + [(o.path, o.html)])[..|ws|] == ws;
    } else {
      assert PageWrites(outcomes + [o]) == ws;
    }
  }

  /** The outcomes of the first `i` entries, extended by the next one. */
  lemma PageOutcomesSnoc(files: map<string, Stored>, unwritable: set<string>, items: seq<IndexEntry>, i: nat)
    requires i < |items|
    ensures PageOutcomes(files, unwritable, items[..i + 1])
            == PageOutcomes(files, unwritable, items[..i]) + [PageOutcomeOf(files, unwritable, items[i])]
  {
    assert items[..i + 1][..i] == items[..i];
  }

  /** A single entry has a single outcome: its own page task's. */
  lemma PageOutcomesSingle(files: map<string, Stored>, unwritable: set<string>, item: IndexEntry)
    ensures PageOutcomes(files, unwritable, [item]) == [PageOutcomeOf(files, unwritable, item)]
  {
    assert [item][..0] == [];
  }

  /**
   * `createIndividualHtmlFiles(data)`: runs the page task of every entry.
   * The program runs them concurrently; each reads only its own input and
   * writes only its own page, so they are run here one after another.
   */
  method CreateIndividualHtmlFiles(disk: Disk, items: seq<IndexEntry>) returns (outcomes: seq<PageOutcome>)
    modifies disk
    ensures outcomes == PageOutcomes(disk.files, disk.unwritable, items)
    ensures disk.dist == Overwrite(old(disk.dist), PageWrites(outcomes))
  {
    outcomes := [];
    var i := 0;
    while i < |items|
      invariant 0 <= i <= |items|
      invariant outcomes == PageOutcomes(disk.files, disk.unwritable, items[..i])
      invariant disk.dist == Overwrite(old(disk.dist), PageWrites(outcomes))
    {
      var o := RenderPage(disk, items[i]);
      PageWritesSnoc(old(disk.dist), outcomes, o);
      PageOutcomesSnoc(disk.files, disk.unwritable, items, i);
      outcomes := outcomes + [o];
      i := i + 1;
    }
    assert items[..i] == items;
  }
}
