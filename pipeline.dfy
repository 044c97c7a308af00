/**
 * `main()`: reads `data/index.json`, keeps the entries that pass index
 * validation, keeps those whose quiz file exists and passes document
 * validation, then writes the index page and one page per kept entry. Each
 * of the three checks on the way can end the run before anything is
 * written.
 */
module Pipeline {
  import opened Wrappers
  import opened Js
  import opened JsString
  import opened Seqs
  import opened Validation
  import opened Loader
  import opened ExistenceFilter
  import opened Render

  /** How a run ends. */
  datatype RunResult =
    | IndexInvalid            // `data/index.json` is missing, unreadable, malformed or not an array
    | NoValidEntries          // no entry of the index passes index validation
    | NoValidQuestionFiles    // no valid entry has a quiz file that loads and validates
    | Rendered(linked: seq<IndexEntry>, indexWritten: bool, pages: seq<PageOutcome>)
  {
    /**
     * The run reaches its last log line. A page task that throws rejects
     * the `Promise.all` of the page tasks, and `main` ends in its `catch`
     * instead.
     */
    predicate CompletedSuccessfully() {
      Rendered? && forall i :: 0 <= i < |pages| ==> !pages[i].Crashed?
    }
  }

  /** `indexJson.filter(entry => validateEntry(entry, true))`. */
  function IndexEntries(items: seq<Json>): (r: seq<Json>)
    ensures forall i :: 0 <= i < |r| ==> r[i] in items && ValidateEntry(r[i], true)
    ensures forall i :: 0 <= i < |items| && ValidateEntry(items[i], true) ==> items[i] in r
  {
    Filter((e: Json) => ValidateEntry(e, true), items)
  }

  /** The entries kept by both filters, as the render stage sees them. */
  function Linked(files: map<string, Stored>, items: seq<Json>): (r: seq<IndexEntry>)
  {
    var valid := IndexEntries(items);
    FilterExistingKeepsIndexEntries(files, valid);
    Map(EntryOf, FilterExisting(files, valid))
  }

  /**
   * How a run on the given input files ends. A rendered run links at least
   * one entry, writes the index page exactly when it can, and runs one page
   * task per linked entry, in order.
   */
  function Outcome(files: map<string, Stored>, unwritable: set<string>): (r: RunResult)
    ensures r.Rendered? ==> |r.linked| >= 1 && (r.indexWritten <==> IndexHtmlPath !in unwritable)
    ensures r.Rendered? ==>
              |r.pages| == |r.linked|
              && forall i :: 0 <= i < |r.pages| ==> r.pages[i] == PageOutcomeOf(files, unwritable, r.linked[i])
  {
    match Load(files, IndexPath)
    case Some(JArr(items)) =>
      if |IndexEntries(items)| == 0 then NoValidEntries
      else if |FilterExisting(files, IndexEntries(items))| == 0 then NoValidQuestionFiles
      else
        var linked := Linked(files, items);
        Rendered(linked, IndexHtmlPath !in unwritable, PageOutcomes(files, unwritable, linked))
    case _ => IndexInvalid
  }

  /** The writes of the render stage, in order: the index page first, then the pages. */
  function SiteWrites(draft: Draft, linked: seq<IndexEntry>, indexWritten: bool, pages: seq<PageOutcome>): seq<(string, string)> {
    (if indexWritten then [(IndexHtmlPath, IndexHtml(draft, linked))] else []) + PageWrites(pages)
  }

  /** The writes a run makes, in order. */
  function Writes(draft: Draft, files: map<string, Stored>, unwritable: set<string>): seq<(string, string)> {
    match Outcome(files, unwritable)
    case Rendered(linked, indexWritten, pages) => SiteWrites(draft, linked, indexWritten, pages)
    case _ => []
  }

  /** `main()`. */
  method Generate(disk: Disk, draft: Draft) returns (result: RunResult)
    modifies disk
    ensures result == Outcome(disk.files, disk.unwritable)
    ensures disk.dist == Overwrite(old(disk.dist), Writes(draft, disk.files, disk.unwritable))
    ensures !result.Rendered? ==> disk.dist == old(disk.dist)
  {
    var indexJson := ReadJson(disk, IndexPath);
    if indexJson.None? || !indexJson.value.JArr? {
      return IndexInvalid;
    }
    result := GenerateFromIndex(disk, draft, indexJson.value.items);
  }

  /** The rest of `main()` once `data/index.json` has given an array. */
  method GenerateFromIndex(disk: Disk, draft: Draft, items: seq<Json>) returns (result: RunResult)
    requires Load(disk.files, IndexPath) == Some(JArr(items))
    modifies disk
    ensures result == Outcome(disk.files, disk.unwritable)
    ensures disk.dist == Overwrite(old(disk.dist), Writes(draft, disk.files, disk.unwritable))
    ensures !result.Rendered? ==> disk.dist == old(disk.dist)
  {
    var validEntries := IndexEntries(items);
    if |validEntries| == 0 {
      return NoValidEntries;
    }
    result := GenerateFromEntries(disk, draft, items, validEntries);
  }

  /** The rest of `main()` once some index entries have passed validation. */
  method GenerateFromEntries(disk: Disk, draft: Draft, items: seq<Json>, validEntries: seq<Json>) returns (result: RunResult)
    requires Load(disk.files, IndexPath) == Some(JArr(items))
    requires validEntries == IndexEntries(items) && |validEntries| != 0
    modifies disk
    ensures result == Outcome(disk.files, disk.unwritable)
    ensures disk.dist == Overwrite(old(disk.dist), Writes(draft, disk.files, disk.unwritable))
    ensures !result.Rendered? ==> disk.dist == old(disk.dist)
  {
    var existingFiles := FilterExistingJsonFiles(disk, validEntries);
    if |existingFiles| == 0 {
      return NoValidQuestionFiles;
    }
    result := RenderKept(disk, draft, items, existingFiles);
  }

  /** The render stage of `main()`, on the entries both filters kept. */
  method RenderKept(disk: Disk, draft: Draft, items: seq<Json>, existingFiles: seq<Json>) returns (result: RunResult)
    requires Load(disk.files, IndexPath) == Some(JArr(items))
    requires |IndexEntries(items)| != 0
    requires existingFiles == FilterExisting(disk.files, IndexEntries(items)) && |existingFiles| != 0
    modifies disk
    ensures result == Outcome(disk.files, disk.unwritable)
    ensures disk.dist == Overwrite(old(disk.dist), Writes(draft, disk.files, disk.unwritable))
  {
    FilterExistingKeepsIndexEntries(disk.files, IndexEntries(items));
    var linked := Map(EntryOf, existingFiles);
    KeptIsLinked(disk.files, items, existingFiles);
    RenderedRun(disk.files, disk.unwritable, items);
    var indexWritten, pages := WriteSite(disk, draft, linked);
    result := Rendered(linked, indexWritten, pages);
    RenderedWrites(draft, disk.files, disk.unwritable, linked, indexWritten, pages);
  }

  /** The entries the filters keep, projected to title and file, are the linked entries. */
  lemma KeptIsLinked(files: map<string, Stored>, items: seq<Json>, kept: seq<Json>)
    requires kept == FilterExisting(files, IndexEntries(items))
    requires forall i :: 0 <= i < |kept| ==> ValidateEntry(kept[i], true)
    ensures Map(EntryOf, kept) == Linked(files, items)
  {
  }

  /** A run past all three checks renders the kept entries. */
  lemma RenderedRun(files: map<string, Stored>, unwritable: set<string>, items: seq<Json>)
    requires Load(files, IndexPath) == Some(JArr(items))
    requires |IndexEntries(items)| != 0 && |FilterExisting(files, IndexEntries(items))| != 0
    ensures var linked := Linked(files, items);
      Outcome(files, unwritable)
      == Rendered(linked, IndexHtmlPath !in unwritable, PageOutcomes(files, unwritable, linked))
  {
  }

  /** The writes of a rendered run are those of its render stage. */
  lemma RenderedWrites(draft: Draft, files: map<string, Stored>, unwritable: set<string>,
                       linked: seq<IndexEntry>, written: bool, pages: seq<PageOutcome>)
    requires Outcome(files, unwritable) == Rendered(linked, written, pages)
    ensures Writes(draft, files, unwritable) == SiteWrites(draft, linked, written, pages)
  {
  }

  /** `writeHtml` then `createIndividualHtmlFiles` on the kept entries. */
  method WriteSite(disk: Disk, draft: Draft, linked: seq<IndexEntry>) returns (indexWritten: bool, pages: seq<PageOutcome>)
    modifies disk
    ensures indexWritten <==> IndexHtmlPath !in disk.unwritable
    ensures pages == PageOutcomes(disk.files, disk.unwritable, linked)
    ensures disk.dist == Overwrite(old(disk.dist), SiteWrites(draft, linked, indexWritten, pages))
  {
    var dist0 := disk.dist;
    indexWritten := WriteHtml(disk, draft, linked);
    pages := CreateIndividualHtmlFiles(disk, linked);
    IndexWriteFirst(dist0, indexWritten, IndexHtml(draft, linked), PageWrites(pages));
  }

  /** Laying down the optional index write, then the page writes, is laying down their concatenation. */
  lemma IndexWriteFirst(dist: map<string, string>, written: bool, html: string, ws: seq<(string, string)>)
    ensures Overwrite(if written then dist[IndexHtmlPath := html] else dist, ws)
            == Overwrite(dist, (if written then [(IndexHtmlPath, html)] else []) + ws)
  {
    var first := if written then [(IndexHtmlPath, html)] else [];
    OverwriteAppend(dist, first, ws);
    if written {
      assert first[..0] == [];
    } else {
      assert first + ws == ws;
    }
  }

  /** The run stops at the first check exactly when `data/index.json` does not load as an array. */
  lemma IndexInvalidIff(files: map<string, Stored>, unwritable: set<string>)
    ensures Outcome(files, unwritable) == IndexInvalid <==>
              !(Load(files, IndexPath).Some? && Load(files, IndexPath).value.JArr?)
  {
  }

  /** The run stops at the second check exactly when the index is an array none of whose entries passes index validation. */
  lemma NoValidEntriesIff(files: map<string, Stored>, unwritable: set<string>, items: seq<Json>)
    requires Load(files, IndexPath) == Some(JArr(items))
    ensures Outcome(files, unwritable) == NoValidEntries <==>
              forall i :: 0 <= i < |items| ==> !ValidateEntry(items[i], true)
  {
    if |IndexEntries(items)| != 0 {
      assert IndexEntries(items)[0] in items;
    }
  }

  /**
   * The run stops at the third check exactly when some index entry passes
   * index validation but none of those has a quiz file that loads and
   * passes document validation.
   */
  lemma NoValidQuestionFilesIff(files: map<string, Stored>, unwritable: set<string>, items: seq<Json>)
    requires Load(files, IndexPath) == Some(JArr(items))
    ensures Outcome(files, unwritable) == NoValidQuestionFiles <==>
              (exists i :: 0 <= i < |items| && ValidateEntry(items[i], true))
              && forall i :: 0 <= i < |items| && ValidateEntry(items[i], true) ==> !Survives(files, items[i])
  {
    NoValidQuestionFilesStage(files, unwritable, items);
    FilterEmpty((e: Json) => ValidateEntry(e, true), items);
    NoSurvivorsIff(files, items);
  }

  /** The third check, in terms of the two filters. */
  lemma NoValidQuestionFilesStage(files: map<string, Stored>, unwritable: set<string>, items: seq<Json>)
    requires Load(files, IndexPath) == Some(JArr(items))
    ensures Outcome(files, unwritable) == NoValidQuestionFiles <==>
              IndexEntries(items) != [] && FilterExisting(files, IndexEntries(items)) == []
  {
  }

  /** The existence filter keeps nothing exactly when no entry passing index validation survives it. */
  lemma NoSurvivorsIff(files: map<string, Stored>, items: seq<Json>)
    ensures FilterExisting(files, IndexEntries(items)) == [] <==>
              forall i :: 0 <= i < |items| && ValidateEntry(items[i], true) ==> !Survives(files, items[i])
  {
    FilterFilterEmpty((e: Json) => ValidateEntry(e, true), (e: Json) => Survives(files, e), items);
  }

  /** A run that stops early writes nothing. */
  lemma AbortWritesNothing(draft: Draft, files: map<string, Stored>, unwritable: set<string>, dist: map<string, string>)
    requires !Outcome(files, unwritable).Rendered?
    ensures Overwrite(dist, Writes(draft, files, unwritable)) == dist
  {
  }

  /** A rendered run reaches its last log line exactly when no linked entry's page task throws. */
  lemma CompletedSuccessfullyIff(files: map<string, Stored>, unwritable: set<string>)
    requires Outcome(files, unwritable).Rendered?
    ensures var r := Outcome(files, unwritable);
      r.CompletedSuccessfully() <==> forall i :: 0 <= i < |r.linked| ==> !PageOutcomeOf(files, unwritable, r.linked[i]).Crashed?
  {
  }

  /** A rendered run links at least one entry. */
  lemma RenderedLinksSome(files: map<string, Stored>, unwritable: set<string>)
    requires Outcome(files, unwritable).Rendered?
    ensures |Outcome(files, unwritable).linked| >= 1
  {
  }

  /** The index entries behind the links: those that passed both filters, in the index's order. */
  function Kept(files: map<string, Stored>, items: seq<Json>): seq<Json> {
    FilterExisting(files, IndexEntries(items))
  }

  /** The entries behind the links come from the index, in its order. */
  lemma KeptInIndexOrder(files: map<string, Stored>, items: seq<Json>)
    ensures IsSubsequence(Kept(files, items), items)
  {
    var valid := IndexEntries(items);
    FilterExistingKeepsOrder(files, valid);
    FilterIsSubsequence((e: Json) => ValidateEntry(e, true), items);
    SubsequenceTransitive(Kept(files, items), valid, items);
  }

  /** Each link is the title and file of an index entry that passed index validation and whose quiz file survived. */
  lemma LinkedFromKept(files: map<string, Stored>, items: seq<Json>)
    ensures var kept := Kept(files, items);
      |Linked(files, items)| == |kept|
      && forall i :: 0 <= i < |kept| ==>
           ValidateEntry(kept[i], true) && Survives(files, kept[i])
           && Linked(files, items)[i] == EntryOf(kept[i])
  {
    var valid := IndexEntries(items);
    var kept := Kept(files, items);
    FilterExistingKeepsIndexEntries(files, valid);
    forall i | 0 <= i < |kept| ensures Survives(files, kept[i]) {
      FilterSurvivorsSurvive(files, valid, i);
    }
  }

  /** Every entry the existence filter keeps survives its check. */
  lemma FilterSurvivorsSurvive(files: map<string, Stored>, entries: seq<Json>, i: nat)
    requires i < |FilterExisting(files, entries)|
    ensures Survives(files, FilterExisting(files, entries)[i])
  {
  }

  /** Every index entry that passes index validation and whose quiz file survives is linked. */
  lemma SurvivorsAreLinked(files: map<string, Stored>, items: seq<Json>, i: nat)
    requires i < |items| && ValidateEntry(items[i], true) && Survives(files, items[i])
    ensures EntryOf(items[i]) in Linked(files, items)
  {
    var valid := IndexEntries(items);
    assert items[i] in valid;
    var j :| 0 <= j < |valid| && valid[j] == items[i];
    SurvivorIsKept(files, valid, j);
    var k := KeptIndex(files, items, items[i]);
    LinkedFromKept(files, items);
  }

  /** A kept entry's position among the kept entries. */
  lemma KeptIndex(files: map<string, Stored>, items: seq<Json>, e: Json) returns (k: nat)
    requires e in Kept(files, items)
    ensures k < |Kept(files, items)| && Kept(files, items)[k] == e
  {
    k :| 0 <= k < |Kept(files, items)| && Kept(files, items)[k] == e;
  }

  /** An entry that survives its check is kept by the existence filter. */
  lemma SurvivorIsKept(files: map<string, Stored>, entries: seq<Json>, j: nat)
    requires j < |entries| && Survives(files, entries[j])
    ensures entries[j] in FilterExisting(files, entries)
  {
  }

  /**
   * No page lands on the index page: the only entry whose page would is
   * `index.json`, and its content is the index array, which fails document
   * validation.
   */
  lemma PageNeverAtIndex(files: map<string, Stored>, unwritable: set<string>, item: IndexEntry)
    requires item.WellFormed()
    requires Load(files, IndexPath).Some? && Load(files, IndexPath).value.JArr?
    ensures var o := PageOutcomeOf(files, unwritable, item);
      o.Written? ==> o.path != IndexHtmlPath
  {
    WrittenPageOrigin(files, unwritable, item);
    if PagePath(item.file) == IndexHtmlPath {
      IndexFileFailsValidation(files, item.file);
    }
  }

  /** The one file name whose page path is the index page's names the index itself, which no document validation accepts. */
  lemma IndexFileFailsValidation(files: map<string, Stored>, file: string)
    requires EndsWith(file, ".json") && PagePath(file) == IndexHtmlPath
    requires Load(files, IndexPath).Some? && Load(files, IndexPath).value.JArr?
    ensures !(Load(files, DataPath(file)).Some? && ValidateEntry(Load(files, DataPath(file)).value))
  {
    OnlyIndexJsonNamesIndexHtml(file);
    assert DataPath(file) == IndexPath;
  }

  /** A rendered run read an index array and renders the entries linked from it. */
  lemma RenderedShape(files: map<string, Stored>, unwritable: set<string>)
    requires Outcome(files, unwritable).Rendered?
    ensures Load(files, IndexPath).Some? && Load(files, IndexPath).value.JArr?
    ensures var linked := Linked(files, Load(files, IndexPath).value.items);
      Outcome(files, unwritable) == Rendered(linked, IndexHtmlPath !in unwritable, PageOutcomes(files, unwritable, linked))
  {
  }

  /** Every linked entry is well formed. */
  lemma LinkedWellFormed(files: map<string, Stored>, items: seq<Json>)
    ensures forall i :: 0 <= i < |Linked(files, items)| ==> Linked(files, items)[i].WellFormed()
  {
  }

  /** No page task over well-formed entries writes `dist/index.html` while the index is an array. */
  lemma PagesMissIndex(files: map<string, Stored>, unwritable: set<string>, linked: seq<IndexEntry>)
    requires forall i :: 0 <= i < |linked| ==> linked[i].WellFormed()
    requires Load(files, IndexPath).Some? && Load(files, IndexPath).value.JArr?
    ensures var pages := PageOutcomes(files, unwritable, linked);
      forall i :: 0 <= i < |pages| && pages[i].Written? ==> pages[i].path != IndexHtmlPath
  {
    forall i | 0 <= i < |linked|
      ensures var o := PageOutcomeOf(files, unwritable, linked[i]); o.Written? ==> o.path != IndexHtmlPath
    {
      PageNeverAtIndex(files, unwritable, linked[i]);
    }
  }

  /** In a rendered run, no page task writes `dist/index.html`. */
  lemma RenderedPagesMissIndex(files: map<string, Stored>, unwritable: set<string>)
    requires Outcome(files, unwritable).Rendered?
    ensures var pages := Outcome(files, unwritable).pages;
      forall i :: 0 <= i < |pages| && pages[i].Written? ==> pages[i].path != IndexHtmlPath
  {
    RenderedShape(files, unwritable);
    var items := Load(files, IndexPath).value.items;
    LinkedWellFormed(files, items);
    PagesMissIndex(files, unwritable, Linked(files, items));
  }

  /** When the index page can be written, the run leaves it holding the links of the kept entries, whatever the page tasks do. */
  lemma IndexPageHoldsLinks(draft: Draft, files: map<string, Stored>, unwritable: set<string>, dist: map<string, string>)
    requires Outcome(files, unwritable).Rendered?
    requires IndexHtmlPath !in unwritable
    ensures var after := Overwrite(dist, Writes(draft, files, unwritable));
      IndexHtmlPath in after && after[IndexHtmlPath] == IndexHtml(draft, Outcome(files, unwritable).linked)
  {
    var r := Outcome(files, unwritable);
    RenderedPagesMissIndex(files, unwritable);
    RenderedWrites(draft, files, unwritable, r.linked, r.indexWritten, r.pages);
    PageWritesAvoid(r.pages, IndexHtmlPath);
    FirstWriteStays(dist, IndexHtmlPath, IndexHtml(draft, r.linked), PageWrites(r.pages));
  }

  /** When the index page cannot be written, the run leaves it as it was. */
  lemma IndexPageUntouched(draft: Draft, files: map<string, Stored>, unwritable: set<string>, dist: map<string, string>)
    requires IndexHtmlPath in unwritable
    ensures var after := Overwrite(dist, Writes(draft, files, unwritable));
      (IndexHtmlPath in after <==> IndexHtmlPath in dist)
      && (IndexHtmlPath in dist ==> after[IndexHtmlPath] == dist[IndexHtmlPath])
  {
    var r := Outcome(files, unwritable);
    if r.Rendered? {
      RenderedPagesMissIndex(files, unwritable);
      RenderedWrites(draft, files, unwritable, r.linked, r.indexWritten, r.pages);
      PageWritesAvoid(r.pages, IndexHtmlPath);
      assert Writes(draft, files, unwritable) == PageWrites(r.pages);
      OverwriteElsewhere(dist, PageWrites(r.pages), IndexHtmlPath);
    }
  }

  /** Running the program a second time on the same inputs leaves the output directory as the first run left it. */
  lemma SecondRunChangesNothing(draft: Draft, files: map<string, Stored>, unwritable: set<string>, dist: map<string, string>)
    ensures var once := Overwrite(dist, Writes(draft, files, unwritable));
      Overwrite(once, Writes(draft, files, unwritable)) == once
  {
    OverwriteIdempotent(dist, Writes(draft, files, unwritable));
  }

  /** An index that is an object rather than an array ends the run with nothing written. */
  lemma ObjectIndexAborts(draft: Draft, files: map<string, Stored>, unwritable: set<string>, dist: map<string, string>)
    requires Load(files, IndexPath).Some? && Load(files, IndexPath).value.JObj?
    ensures Outcome(files, unwritable) == IndexInvalid
    ensures Overwrite(dist, Writes(draft, files, unwritable)) == dist
  {
  }

  /**
   * An index of two valid entries, the first with a usable quiz file and
   * the second with no file at all: only the first is linked, and the only
   * page task is the first entry's, so the run writes the index page and at
   * most that one page.
   */
  lemma MissingFileIsDropped(draft: Draft, files: map<string, Stored>, unwritable: set<string>, a: Json, b: Json)
    requires Load(files, IndexPath) == Some(JArr([a, b]))
    requires ValidateEntry(a, true) && ValidateEntry(b, true)
    requires Load(files, DataPath(EntryOf(a).file)).Some? && ValidateEntry(Load(files, DataPath(EntryOf(a).file)).value)
    requires DataPath(EntryOf(b).file) !in files
    ensures Outcome(files, unwritable).Rendered?
    ensures Outcome(files, unwritable).linked == [EntryOf(a)]
    ensures Outcome(files, unwritable).pages == [PageOutcomeOf(files, unwritable, EntryOf(a))]
    ensures forall j :: 0 <= j < |Writes(draft, files, unwritable)| ==>
              Writes(draft, files, unwritable)[j].0 in {IndexHtmlPath, PagePath(EntryOf(a).file)}
  {
    var e := EntryOf(a);
    TwoEntriesKeepFirst(files, a, b);
    SingleLinkRun(files, unwritable, [a, b], e);
    var o := PageOutcomeOf(files, unwritable, e);
    RenderedWrites(draft, files, unwritable, [e], IndexHtmlPath !in unwritable, [o]);
    WrittenPageOrigin(files, unwritable, e);
    SingleSiteWrites(draft, e, IndexHtmlPath !in unwritable, o);
  }

  /** A run whose filters leave a single entry links it and runs its page task alone. */
  lemma SingleLinkRun(files: map<string, Stored>, unwritable: set<string>, items: seq<Json>, e: IndexEntry)
    requires Load(files, IndexPath) == Some(JArr(items))
    requires |IndexEntries(items)| != 0 && |FilterExisting(files, IndexEntries(items))| != 0
    requires Linked(files, items) == [e]
    ensures Outcome(files, unwritable) == Rendered([e], IndexHtmlPath !in unwritable, [PageOutcomeOf(files, unwritable, e)])
  {
    RenderedRun(files, unwritable, items);
    PageOutcomesSingle(files, unwritable, e);
  }

  /** The site writes for a single linked entry go to the index page or to that entry's page. */
  lemma SingleSiteWrites(draft: Draft, e: IndexEntry, written: bool, o: PageOutcome)
    requires o.Written? ==> o.path == PagePath(e.file)
    ensures var ws := SiteWrites(draft, [e], written, [o]);
      forall j :: 0 <= j < |ws| ==> ws[j].0 in {IndexHtmlPath, PagePath(e.file)}
  {
    PageWritesAt([o], PagePath(e.file));
  }

  /** Of two valid entries, the first surviving and the second with no file, the filters keep the first alone. */
  lemma TwoEntriesKeepFirst(files: map<string, Stored>, a: Json, b: Json)
    requires ValidateEntry(a, true) && ValidateEntry(b, true)
    requires Load(files, DataPath(EntryOf(a).file)).Some? && ValidateEntry(Load(files, DataPath(EntryOf(a).file)).value)
    requires DataPath(EntryOf(b).file) !in files
    ensures Kept(files, [a, b]) == [a]
    ensures Linked(files, [a, b]) == [EntryOf(a)]
  {
    BothIndexEntries(a, b);
    SurvivesIff(files, a);
    MissingFileFails(files, b);
    FilterPair((e: Json) => Survives(files, e), a, b);
  }

  /** Two entries that pass index validation both stay. */
  lemma BothIndexEntries(a: Json, b: Json)
    requires ValidateEntry(a, true) && ValidateEntry(b, true)
    ensures IndexEntries([a, b]) == [a, b]
  {
    FilterPair((e: Json) => ValidateEntry(e, true), a, b);
  }

  /** An entry whose quiz file does not exist does not survive. */
  lemma MissingFileFails(files: map<string, Stored>, b: Json)
    requires ValidateEntry(b, true) && DataPath(EntryOf(b).file) !in files
    ensures !Survives(files, b)
  {
  }
}
