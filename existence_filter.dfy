/**
 * `filterExistingJsonFiles`: keeps the index entries whose quiz file exists,
 * loads and passes document validation. The per-entry checks run
 * concurrently in the program; `Promise.all` puts each result back in the
 * entry's own position and `filter(Boolean)` drops the nulls, so the model
 * checks the entries one after another in input order.
 */
module ExistenceFilter {
  import opened Wrappers
  import opened Js
  import opened Seqs
  import opened Validation
  import opened Loader

  /**
   * The per-entry decision: `data/<file>` is accessible, `readJson` gives a
   * value, and that value passes document validation with an array of
   * questions. Only the load and the document validation decide it.
   */
  function Survives(files: map<string, Stored>, entry: Json): (r: bool)
    ensures r <==> IsString(Prop(entry, "file")) &&
                   var content := Load(files, DataPath(Prop(entry, "file").value.s));
                   content.Some? && ValidateEntry(content.value)
  {
    IsString(Prop(entry, "file")) &&
    var path := DataPath(Prop(entry, "file").value.s);
    path in files &&
    match Load(files, path)
    case None => false
    case Some(content) => ValidateEntry(content) && IsArray(Prop(content, "questions"))
  }

  /** The entries the filter keeps, as a function of the input files. */
  function FilterExisting(files: map<string, Stored>, entries: seq<Json>): seq<Json> {
    Filter((e: Json) => Survives(files, e), entries)
  }

  /** An entry survives exactly when its file loads and the content passes document validation; the access check and the array check add nothing. */
  lemma SurvivesIff(files: map<string, Stored>, entry: Json)
    requires ValidateEntry(entry, true)
    ensures Survives(files, entry) <==>
              Load(files, DataPath(EntryOf(entry).file)).Some? && ValidateEntry(Load(files, DataPath(EntryOf(entry).file)).value)
  {
  }

  /**
   * The filter's output is an order-preserving subsequence of its input,
   * no longer than it, holding exactly the entries that survive: a missing
   * file or an invalid one drops that entry alone.
   */
  lemma FilterExistingKeepsOrder(files: map<string, Stored>, entries: seq<Json>)
    ensures IsSubsequence(FilterExisting(files, entries), entries)
    ensures |FilterExisting(files, entries)| <= |entries|
    ensures forall i :: 0 <= i < |entries| && Survives(files, entries[i]) ==> entries[i] in FilterExisting(files, entries)
    ensures forall e :: e in FilterExisting(files, entries) ==> e in entries && Survives(files, e)
  {
    FilterIsSubsequence((e: Json) => Survives(files, e), entries);
  }

  /** The filter keeps only entries that passed index validation when all its input did. */
  lemma FilterExistingKeepsIndexEntries(files: map<string, Stored>, entries: seq<Json>)
    requires forall i :: 0 <= i < |entries| ==> ValidateEntry(entries[i], true)
    ensures forall i :: 0 <= i < |FilterExisting(files, entries)| ==> ValidateEntry(FilterExisting(files, entries)[i], true)
  {
    var kept := FilterExisting(files, entries);
    forall i | 0 <= i < |kept| ensures ValidateEntry(kept[i], true) {
      var j :| 0 <= j < |entries| && entries[j] == kept[i];
    }
  }

  /** Entries that all survive come back unchanged and in the same order. */
  lemma FilterExistingKeepsAllSurvivors(files: map<string, Stored>, entries: seq<Json>)
    requires forall i :: 0 <= i < |entries| ==> Survives(files, entries[i])
    ensures FilterExisting(files, entries) == entries
  {
    FilterKeepsAll((e: Json) => Survives(files, e), entries);
  }

  /** The check run for one entry: the entry itself when it survives, null (None) otherwise. */
  method CheckEntry(disk: Disk, entry: Json) returns (r: Option<Json>)
    requires ValidateEntry(entry, true)
    ensures r == if Survives(disk.files, entry) then Some(entry) else None
  {
    var filePath := DataPath(EntryOf(entry).file);
    var accessible := disk.Access(filePath);
    if !accessible {
      return None;
    }
    var content := ReadJson(disk, filePath);
    if content.None? || !ValidateEntry(content.value) || !IsArray(Prop(content.value, "questions")) {
      return None;
    }
    return Some(entry);
  }

  /** `results.filter(Boolean)`: the values present, in order. */
  function Present(results: seq<Option<Json>>): seq<Json> {
    if results == [] then []
    else Present(results[..|results| - 1]) + (match results[|results| - 1] case Some(e) => [e] case None => [])
  }

  /** One more checked entry extends the kept prefix by that entry exactly when it survives. */
  lemma KeepStep(files: map<string, Stored>, entries: seq<Json>, i: nat, results: seq<Option<Json>>, r: Option<Json>)
    requires i < |entries|
    requires Present(results) == FilterExisting(files, entries[..i])
    requires r == if Survives(files, entries[i]) then Some(entries[i]) else None
    ensures Present(results + [r]) == FilterExisting(files, entries[..i + 1])
  {
    FilterSnoc((e: Json) => Survives(files, e), entries[..i], entries[i]);
    assert entries[..i + 1] == entries[..i] + [entries[i]];
    assert (results + [r])[..|results|] == results;
  }

  /**
   * `filterExistingJsonFiles(data)`: checks every entry, keeping each
   * result in its entry's position, then drops the nulls.
   */
  method FilterExistingJsonFiles(disk: Disk, entries: seq<Json>) returns (kept: seq<Json>)
    requires forall i :: 0 <= i < |entries| ==> ValidateEntry(entries[i], true)
    ensures kept == FilterExisting(disk.files, entries)
  {
    var results: seq<Option<Json>> := [];
    var i := 0;
    while i < |entries|
      invariant 0 <= i <= |entries|
      invariant |results| == i
      invariant Present(results) == FilterExisting(disk.files, entries[..i])
    {
      var r := CheckEntry(disk, entries[i]);
      KeepStep(disk.files, entries, i, results, r);
      results := results + [r];
      i := i + 1;
    }
    assert entries[..i] == entries;
    kept := Present(results);
  }
}
