# Quiz site generator: validation and rendering

The site generator reads a quiz index, `data/index.json`. The index is an
array of entries; each entry names a title and a quiz file. The generator
then writes a static site into `dist/`:

- `dist/index.html` holds one link per usable entry.
- Each usable quiz file gets one page of questions and answers.

The repository holds two drafts of the program, `src/lib/main.js` and
`main.js`. Their validation, filtering and rendering are the same; they
differ only in the markup of the index page and in how the output directory
is created. This one model covers both. The `Render.Draft` value says which
markup the index page gets: `Render.LibDraft` for `src/lib/main.js`,
`Render.RootDraft` for `main.js`.

The modules follow the stages of the program:

- `Js`: the values `JSON.parse` produces.
  - Property reads, `typeof`, `Array.isArray` and truthiness.
  - `Fallible`, for the TypeError raised when a property of `null` is read.
- `JsString`: the string operations with JavaScript's meaning.
  - `trim`, using the ECMAScript white-space and line-terminator set.
  - `endsWith`.
  - `replace` with a string pattern, which replaces the first occurrence only.
  - `join`.
  - `split`, used only as the inverse of `join`.
- `Seqs`: `map` and `filter` on sequences.
- `Validation`: `validateEntry` in both modes, and `validateQnA`.
- `Loader`:
  - the file system (`Disk`);
  - `readJson`, which turns a missing file, an unreadable file and bad JSON into `null`;
  - `Overwrite`, the output directory after a sequence of writes.
- `ExistenceFilter`: `filterExistingJsonFiles`.
- `Render`:
  - `writeHtml`, the index page and its link list;
  - `createIndividualHtmlFiles`: question blocks, answer filtering, the skip rules, and the page path and page.
- `Pipeline`: `main`.
  - It has three early aborts, then the index write, then the page tasks.
  - `Outcome` and `Writes` give the end state of a run as functions of the input files. The methods are proved against them.

Both drafts have the same functions; their line ranges match as follows.

| function | `src/lib/main.js` | `main.js` |
|---|---|---|
| readJson | 62-85 | 53-76 |
| validateQnA | 90-107 | 81-93 |
| validateEntry | 114-153 | 100-125 |
| filterExistingJsonFiles | 160-183 | 132-150 |
| writeHtml | 190-238 | 159-184 |
| createIndividualHtmlFiles | 244-319 | 192-247 |
| main | 328-363 | 256-288 |

The table below cites `src/lib/main.js`. Each member models the matching
lines of `main.js` as well, found through this table.

Where the program's behaviour and its stated intent differ, the model
follows the program. These cases are listed at the end of "## Left out".

## Model

| member | source | states |
|---|---|---|
| Js.Prop | src/lib/main.js:120 | A property read gives a value exactly when the value is an object that holds the key; otherwise it gives `undefined`. |
| JsString.Trim | src/lib/main.js:125 | `trim()` is empty exactly when the string is all white space. A non-empty result has no white space at either end. |
| JsString.IndexOf | src/lib/main.js:194 | The position found is an occurrence of the pattern, and no earlier position is one. |
| JsString.Replace | src/lib/main.js:194 | A string pattern that does not occur leaves the string unchanged. Otherwise only its first occurrence is replaced: the prefix before it and the suffix after it are kept. |
| JsString.JoinAppend | src/lib/main.js:198 | Joining two non-empty lists gives the first list joined, then the separator, then the second list joined. |
| JsString.SplitJoin | src/lib/main.js:198 | Take parts that do not contain a character. Joining them with that character and splitting on it gives back exactly the parts. |
| Seqs.Filter | src/lib/main.js:341 | `filter` keeps only elements that pass, and it keeps every element that passes. |
| Seqs.FilterIsSubsequence | src/lib/main.js:182 | The output of `filter` is an order-preserving subsequence of its input. |
| Validation.ValidateEntry | src/lib/main.js:114-153 | Index mode accepts an object exactly when `title` and `file` are strings, the title has non-white-space content, and the file ends in `.json`. Document mode accepts an object exactly when `title` is such a string and `questions` is a non-empty array. Both modes reject everything that is not an object, including arrays. |
| Validation.JsonSuffixIsFilled | src/lib/main.js:127-128 | A file name ending in `.json` always has non-white-space content, so the blank-file test never decides the outcome. |
| Validation.RejectsBlankTitle | src/lib/main.js:139-144 | In both modes, an entry is rejected when its `title` is missing, is not a string, or is only white space. |
| Validation.RejectsNonJsonFile | src/lib/main.js:128 | Index mode rejects a string `file` that does not end in `.json`, whatever the title is. |
| Validation.AcceptsIndexEntry | src/lib/main.js:122-136 | An object with a non-blank string title and a string file ending in `.json` passes index mode. Its title and file are the ones the later stages read. |
| Validation.AcceptsDocument | src/lib/main.js:139-152 | An object with a non-blank string title and a non-empty `questions` array passes document mode, and its questions are that array. |
| Validation.AcceptsSampleIndexEntry | src/test/main.test.js:83-86 | `{title: 'Valid', file: 'valid.json'}` passes index mode. |
| Validation.RejectsQuestionsThatAreNotAnArray | src/main.test.js:108-111 | A document whose `questions` is a string is rejected. |
| Validation.RejectsEmptyQuestionList | src/lib/main.js:139-144 | `{questions: []}` is rejected by document mode. |
| Validation.EntryOf | src/lib/main.js:122-136 | An entry that passes index mode has string fields `title` and `file`, and they form a well-formed index entry. |
| Validation.QuestionsOf | src/lib/main.js:142-143 | A document that passes document mode has at least one question. |
| Validation.EveryAnswerIsString | src/lib/main.js:96-97 | `every` gives true exactly when all answers have a string `answer`; an empty list passes. It throws exactly when a `null` comes before any failing answer. |
| Validation.ValidateQnA | src/lib/main.js:90-107 | `validateQnA` gives true exactly for an object with a non-blank string `question` and an array `answers` whose elements all have a string `answer`. It throws exactly when that array holds a `null` that comes before any failing answer. |
| Loader.Disk.Access | src/lib/main.js:165 | `fs.access` succeeds exactly when the path exists. |
| Loader.Disk.ReadFile | src/lib/main.js:66 | `fs.readFile` gives a text exactly when the file exists and is readable. The text it gives is that file's text. |
| Loader.Disk.WriteFile | src/lib/main.js:230 | A write succeeds exactly when the path is writable. A successful write replaces only that path's content; a failed write changes nothing. |
| Loader.ReadJson | src/lib/main.js:62-85 | `readJson` gives `None` exactly when the file is missing, unreadable, or not valid JSON. Otherwise it gives the parsed value of the file's text, which is `Some(JNull)` when that text is the JSON `null`. It never throws. |
| Loader.OverwriteElsewhere | src/lib/main.js:311-316 | A path that no write names keeps its old content. |
| Loader.OverwriteAppend | src/lib/main.js:355-358 | Two batches of writes in a row have the same effect as their concatenation. |
| Loader.FirstWriteStays | src/lib/main.js:229-237 | A write that no later write overrides is what its path holds at the end. |
| Loader.OverwriteIdempotent | src/lib/main.js:311-316 | Applying the same writes twice leaves the same directory as applying them once. |
| ExistenceFilter.Survives | src/lib/main.js:162-180 | An entry survives exactly when its `file` is a string and `data/<file>` loads and passes document validation. |
| ExistenceFilter.SurvivesIff | src/lib/main.js:163-175 | An index entry survives exactly when its `data/<file>` loads and passes document validation. The access check and the array check add nothing. |
| ExistenceFilter.FilterExistingKeepsOrder | src/lib/main.js:160-183 | The kept entries are an order-preserving subsequence of the input, no longer than it. Every survivor is kept and every kept entry survives, so a missing or invalid file drops that entry alone. |
| ExistenceFilter.FilterExistingKeepsIndexEntries | src/lib/main.js:182 | When every input entry passed index validation, every kept entry did too. |
| ExistenceFilter.FilterExistingKeepsAllSurvivors | src/lib/main.js:160-183 | When every entry survives, the output is the input unchanged. |
| ExistenceFilter.CheckEntry | src/lib/main.js:162-180 | One entry's check yields the entry when it survives and `null` otherwise. |
| ExistenceFilter.FilterExistingJsonFiles | src/lib/main.js:160-183 | The method checks the entries one by one and drops the nulls. It returns exactly the subsequence of surviving entries. |
| Render.HtmlName | src/lib/main.js:194 | A name without `.json` is unchanged. Otherwise the name keeps its length, and only its first `.json` becomes `.html`: the text before and after it is kept. |
| Render.HtmlNameOfDoubleSuffix | src/lib/main.js:194 | `x.json.json` becomes `x.html.json`: this is not an extension swap. |
| Render.HtmlNameKeepsOut | src/lib/main.js:194 | A character outside `.html` that is absent from the file name is absent from the HTML name. |
| Render.OnlyIndexJsonNamesIndexHtml | src/lib/main.js:293-296 | Among names ending in `.json`, only `index.json` has its page path at `dist/index.html`, with paths taken as plain strings. |
| Render.HtmlNameCollides | src/lib/main.js:293-296 | `q.json.html` and `q.html.json` have the same HTML name, `q.html.html`, so their pages share a path. |
| Render.Link | src/lib/main.js:193-196 | A link is exactly `<li><a href="H">T</a></li>`, where H is the entry's HTML name and T its title: it starts with the opening part, ends with the title and `</a></li>`, and is no longer than the two together. |
| Render.LinkList | src/lib/main.js:191-198 | The link list is empty exactly when there are no entries. Otherwise it starts with the first entry's link, and for one entry it is that link alone. With `Render.LinkListAppend` this fixes the whole list. |
| Render.LinkListAppend | src/lib/main.js:191-198 | The link list of two runs of entries is the first run's list, then a newline, then the second run's list. The links follow the entries' order. |
| Render.LinkKeepsOutNewline | src/lib/main.js:193-196 | A link contains a newline only if its title or its file does. |
| Render.LinkListOneLinePerEntry | src/lib/main.js:191-198 | When no title or file contains a newline, splitting the list at newlines gives, in order, exactly the entries' `<li><a href="H">T</a></li>`. |
| Render.WriteHtml | src/lib/main.js:190-238 | The index page is written exactly when `dist/index.html` is writable. It is the draft's head, then the link list, then the draft's tail. Nothing else changes. |
| Render.AnswerItem | src/lib/main.js:278 | An answer item is exactly `<li>A (Correct)</li>` when `correct` is true and `<li>A </li>` otherwise: it starts with `<li>`, the answer text and a space, ends in `</li>`, ends in ` (Correct)</li>` exactly when `correct` is true, and its length leaves room for nothing else. |
| Render.AnswersHtml | src/lib/main.js:273-279 | Rendering the answers throws exactly when some answer is `null`. Otherwise the result is empty exactly when no answer has a string `answer` and a boolean `correct`. |
| Render.AnswersHtmlKeepsOrder | src/lib/main.js:273-279 | The kept answers are exactly those with a string `answer` and a boolean `correct`, in their original order. |
| Render.EmptyAnswersHtml | src/lib/main.js:273-279 | No answers render as the empty string. |
| Render.QuestionBlock | src/lib/main.js:260-282 | A question contributes the empty string exactly when it fails the renderer's test (a truthy string `question` and an array `answers`). Otherwise it contributes exactly `<div><h2>Q</h2><ul>`, then its rendered answers, then `</ul></div>`. It throws exactly when the question is `null`, or when it is renderable and has a `null` answer. |
| Render.QuestionBlockHoldsKeptAnswers | src/lib/main.js:273-281 | A renderable question with no `null` answer yields its heading, then one item per answer with a string `answer` and a boolean `correct`, in their original order, then the closing tags. |
| Render.EmptyAnswersKeepHeading | src/lib/main.js:281 | `answers: []` still gives the heading, over an empty `<ul>`. |
| Render.QuestionsHtml | src/lib/main.js:259-283 | Mapping and joining the questions throws exactly when some question's block throws. |
| Render.QuestionsHtmlAppend | src/lib/main.js:259-283 | When neither run of questions throws, the blocks of the two runs together are the first run's blocks followed by the second's. |
| Render.QuestionsHtmlThrowsIff | src/lib/main.js:259-283 | Mapping the questions throws exactly when some question is `null`, or is renderable and has a `null` answer. |
| Render.QuestionsHtmlSkipsUnrenderable | src/lib/main.js:261-271 | A non-null question that fails the renderer's test is dropped wherever it stands in the list; the others render as before. |
| Render.QuestionsHtmlBlankIff | src/lib/main.js:285-291 | The joined blocks are blank exactly when no question passes the renderer's test. |
| Render.PageContent | src/lib/main.js:250-257 | A page's content is usable exactly when it loads and passes document validation. The later truthiness and array checks reject nothing more. |
| Render.PageOutcomeOf | src/lib/main.js:248-317 | A page task is unusable exactly when its content is not usable. A written or failed page names the entry's page path. A page is written only to a writable path, and a write fails only on an unwritable one. |
| Render.PageCrashedIff | src/lib/main.js:250-283 | A page task throws exactly when its content is usable and holds a `null` question, or a renderable question with a `null` answer. |
| Render.PageWrittenIff | src/lib/main.js:250-317 | A page is written exactly when five things hold: its content loads, it passes document validation, some question passes the renderer's test, rendering does not throw, and the page path is writable. It then lands at `dist/` plus the HTML name, with the index entry's title as `<title>` and `<h1>`. |
| Render.WrittenPageOrigin | src/lib/main.js:293-312 | A written page sits at its entry's page path, and its content loaded and passed document validation. |
| Render.PageSkippedIffNoRenderableQuestion | src/lib/main.js:285-291 | Take usable content that renders without throwing. Its page is skipped exactly when every question fails the renderer's test. |
| Render.QnAAcceptedIsRenderable | src/lib/main.js:261-265 | Every question that `validateQnA` accepts passes the renderer's test. |
| Render.WhitespaceQuestionIsRendered | src/lib/main.js:261-265 | A question of white space only is rejected by `validateQnA`, yet it is rendered with that white space as its heading. |
| Render.RenderPage | src/lib/main.js:248-317 | One page task's outcome is the page-outcome function. Only a written page changes the output directory, and only at its path. |
| Render.PageOutcomes | src/lib/main.js:247-318 | There is one outcome per entry, in the entries' order, each its own task's outcome. |
| Render.PageWrites | src/lib/main.js:311-317 | Every page write comes from a written page outcome. |
| Render.PageWritesAvoid | src/lib/main.js:311-317 | A path that no written page names receives no page write. |
| Render.PageWritesAt | src/lib/main.js:311-317 | When every written page names one path, every page write goes to that path. |
| Render.CreateIndividualHtmlFiles | src/lib/main.js:244-319 | The method runs every entry's page task. Its outcomes are the page-outcome list, and the output directory is the old one overwritten by the pages' writes in order. |
| Pipeline.IndexEntries | src/lib/main.js:341 | Every entry kept by index validation comes from the index and passes index mode. Every index entry that passes is kept. |
| Pipeline.Outcome | src/lib/main.js:328-361 | A rendered run links at least one entry, and writes the index page exactly when `dist/index.html` is writable. It has one page outcome per linked entry, in order, each that entry's page task. |
| Pipeline.Generate | src/lib/main.js:328-361 | `main` ends as the outcome function says. The output directory is the old one overwritten by the run's writes. A run that aborts changes nothing. |
| Pipeline.GenerateFromIndex | src/lib/main.js:341-358 | From the index-validation step on, the run ends as the outcome function says. |
| Pipeline.GenerateFromEntries | src/lib/main.js:348-358 | From the existence filter on, the run ends as the outcome function says. |
| Pipeline.RenderKept | src/lib/main.js:355-358 | The render stage on the kept entries ends as the outcome function says, and it makes the run's writes. |
| Pipeline.WriteSite | src/lib/main.js:355-358 | `writeHtml`, then `createIndividualHtmlFiles`. The index is written exactly when it is writable. The pages are the page-outcome list. The writes are the index write first, then the page writes. |
| Pipeline.IndexWriteFirst | src/lib/main.js:355-358 | Writing the index page, then the pages, is the same as applying their concatenated writes. |
| Pipeline.KeptIsLinked | src/lib/main.js:348-355 | The title and file of each entry kept by both filters are the linked entries. |
| Pipeline.RenderedRun | src/lib/main.js:348-358 | A run that passes all three checks renders the linked entries, and runs their page tasks. |
| Pipeline.RenderedWrites | src/lib/main.js:355-358 | The writes of a rendered run are those of its render stage. |
| Pipeline.IndexInvalidIff | src/lib/main.js:334-338 | The run stops at the first check exactly when `data/index.json` does not load as an array. |
| Pipeline.NoValidEntriesIff | src/lib/main.js:341-345 | Take an index that loads as an array. The run stops at the second check exactly when none of its entries passes index validation. |
| Pipeline.NoValidQuestionFilesIff | src/lib/main.js:348-352 | The run stops at the third check exactly when two things hold: some entry passes index validation, and no such entry survives the existence filter. |
| Pipeline.NoSurvivorsIff | src/lib/main.js:348-349 | The existence filter keeps nothing exactly when no entry passing index validation survives it. |
| Pipeline.AbortWritesNothing | src/lib/main.js:334-352 | A run that stops early leaves the output directory unchanged. |
| Pipeline.CompletedSuccessfullyIff | src/lib/main.js:358-363 | A rendered run reaches its last log line exactly when no linked entry's page task throws; otherwise it ends in `main().catch`. |
| Pipeline.RenderedLinksSome | src/lib/main.js:348-355 | When `writeHtml` is reached, it receives at least one entry. |
| Pipeline.KeptInIndexOrder | src/lib/main.js:341-348 | The entries behind the links are an order-preserving subsequence of the index. |
| Pipeline.LinkedFromKept | src/lib/main.js:341-355 | There is one link per kept entry. Each kept entry passed index validation and survived the existence filter, and its link shows its title and file. |
| Pipeline.SurvivorsAreLinked | src/lib/main.js:341-355 | Every index entry that passes index validation and survives the existence filter is linked. |
| Pipeline.PageNeverAtIndex | src/lib/main.js:293-296 | With paths taken as plain strings, no page task writes `dist/index.html`. The one name that would lead there is `index.json`, and its content is the index array, which document validation rejects. |
| Pipeline.IndexFileFailsValidation | src/lib/main.js:4 | With paths taken as plain strings, the file whose page would be `dist/index.html` is the index file itself, and it fails document validation. |
| Pipeline.RenderedShape | src/lib/main.js:334-358 | A rendered run read an index array, and it renders the entries linked from that array. |
| Pipeline.LinkedWellFormed | src/lib/main.js:341-355 | Every linked entry has a non-blank title and a file ending in `.json`. |
| Pipeline.PagesMissIndex | src/lib/main.js:358 | While the index is an array, no page task over well-formed entries writes `dist/index.html`, with paths taken as plain strings. |
| Pipeline.RenderedPagesMissIndex | src/lib/main.js:355-358 | In a rendered run, no page goes to `dist/index.html`, with paths taken as plain strings. |
| Pipeline.IndexPageHoldsLinks | src/lib/main.js:355-358 | In a rendered run with a writable index page, `dist/index.html` ends up holding exactly the index page of the linked entries, whatever the page tasks do, with paths taken as plain strings. |
| Pipeline.IndexPageUntouched | src/lib/main.js:229-237 | When the index page cannot be written, a run leaves `dist/index.html` as it was. |
| Pipeline.SecondRunChangesNothing | src/lib/main.js:328-361 | Running again on the same inputs leaves the output directory as the first run left it. |
| Pipeline.ObjectIndexAborts | src/lib/main.js:335-338 | An index that is an object rather than an array ends the run, with nothing written. |
| Pipeline.TwoEntriesKeepFirst | src/lib/main.js:160-183 | Take two valid index entries: the first has a usable quiz file, the second has no file. The filters keep the first entry alone. |
| Pipeline.MissingFileIsDropped | src/lib/main.js:341-358 | For the same index, the run links only the first entry and runs its page task alone. Every write goes to the index page or to that entry's page. |

## Left out

- `logMessage`: it reads the clock and writes to the console. No output of the site depends on it.
- `ensureDirectoryExists` and `makeDirectory`: the model takes the output directory to exist.
  - A write that fails, for any reason, is a path in `Disk.unwritable`.
  - `src/lib/main.js` line 36 calls `makeDirectory` without `await`. The ordering race this allows is not modelled.
- `JSON.parse`: the parsed value is an input. A syntax error is the `Malformed` text of a file.
- Numbers: `Json` numbers are integers. No rule of the program looks at a number beyond its type and its truthiness.
- Concurrency:
  - `Promise.all` runs the existence checks and the page tasks concurrently. The model runs them one after another in input order. This gives the same result as long as no two entries' pages share a path, because each task then reads only its own input and writes only its own page.
  - Two entries' pages share a path when they name the same file, and also when their HTML names coincide: `replace` is not one-to-one (`Render.HtmlNameCollides`). The later page write wins in the model. The program races.
- `path.resolve` and `path.join`: paths are the strings `data/<file>` and `dist/<html name>`. No normalisation is modelled: `./`, `..`, and absolute names are not resolved.
  - The filter reads `path.resolve('data', file)` and the page task reads `path.join('./data', file)`. For an absolute name these are different files; the model reads one path for both.
- Pipeline.PageNeverAtIndex: it holds only for file names that stay inside `data/`. A name such as `../dist/index.json` gives the page path `dist/index.html` in the program, so a page can overwrite the index page.
- Pipeline.IndexFileFailsValidation: it holds only for file names that stay inside `data/`, for the same reason.
- Pipeline.PagesMissIndex: it holds only for file names that stay inside `data/`, for the same reason.
- Pipeline.RenderedPagesMissIndex: it holds only for file names that stay inside `data/`, for the same reason.
- Pipeline.IndexPageHoldsLinks: it holds only for file names that stay inside `data/`, for the same reason.
- Render.OnlyIndexJsonNamesIndexHtml: it is about the path strings; after normalisation other names, such as `../dist/index.json`, lead to `dist/index.html` too.
- Pipeline.SecondRunChangesNothing: it takes `data/` and `dist/` to be disjoint, as plain path strings are. A file name that leads from `data/` into `dist/` lets a second run read what the first one wrote.
- Loader.ReadJson: a file whose text is the JSON `null` gives `Some(JNull)`. It stands for the `null` that `readJson` returns, and every caller rejects both alike (`src/lib/main.js` lines 115, 252 and 335).
- The markup around the link list and the question blocks: each draft's static HTML is kept as constant strings. Its indentation and line breaks are not reproduced.
- Strings: they are sequences of characters. UTF-16 code units and surrogate pairs are not modelled.
- A page task that throws: this happens on a `null` question, or on a `null` answer of a renderable question. Its outcome is `Crashed`, and the other page tasks still run and write. `RunResult.CompletedSuccessfully` is false for such a run, because it ends in `main().catch` (`Pipeline.CompletedSuccessfullyIff`).
- Render.LinkListOneLinePerEntry: it is stated for at least one entry only. Splitting the empty list gives one empty line. `main` never passes `writeHtml` an empty list (`Pipeline.RenderedLinksSome`).
- The program's behaviour where its intent differs:
  - `answers: []` renders the question heading over an empty `<ul>`. No "no answer" placeholder is produced.
  - Links are joined with a newline. A test expects no separator.
  - `{questions: []}` is rejected by document validation, so an entry whose quiz file holds it is dropped. A test expects it kept.
  - A white-space-only question passes the renderer's test although `validateQnA` rejects it. `validateQnA` is never called by the program.
  - A `null` question or answer does not skip that element: it fails the page task, and the run ends in the top-level `catch`.
- The test files and the jest configurations are not part of this model. Two tests are cited where they agree with the code: `src/test/main.test.js` lines 83-86 and `src/main.test.js` lines 108-111.
