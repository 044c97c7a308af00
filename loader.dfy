/**
 * The file system as the site generator sees it, and the `readJson` loader.
 * Input files are read-only for the whole run; output files are written
 * into `dist/`. Directory creation is not modelled: the output directory is
 * taken to exist, and a write that fails for any reason is an output path in
 * `unwritable`.
 */
module Loader {
  import opened Wrappers
  import opened Js

  /** What `JSON.parse` makes of a file's text: a syntax error, or a value. */
  datatype JsonText = Malformed | WellFormed(value: Json)

  /** A file that exists: one `fs.readFile` cannot read (permissions, a directory), or one it can, with its text. */
  datatype Stored = Unreadable | Readable(text: JsonText)

  /** The index document, `./data/index.json`. */
  const IndexPath: string := "data/index.json"

  /** Where a quiz file named by an index entry is read from: `data/<file>`. */
  function DataPath(file: string): string {
    "data/" + file
  }

  /** The file system: input files by path, the output paths that cannot be written, and the output written so far. */
  class Disk {
    const files: map<string, Stored>
    const unwritable: set<string>
    var dist: map<string, string>

    constructor (files: map<string, Stored>, unwritable: set<string>, dist: map<string, string>)
      ensures this.files == files && this.unwritable == unwritable && this.dist == dist
    {
      this.files := files;
      this.unwritable := unwritable;
      this.dist := dist;
    }

    /** `fs.access(path)`: succeeds exactly when the path exists. */
    method Access(path: string) returns (ok: bool)
      ensures ok <==> path in files
    {
      ok := path in files;
    }

    /** `fs.readFile(path, 'utf-8')`: the text, or None for a missing (ENOENT) or unreadable file. */
    method ReadFile(path: string) returns (text: Option<JsonText>)
      ensures text.Some? <==> path in files && files[path].Readable?
      ensures text.Some? ==> files[path] == Readable(text.value)
    {
      if path in files && files[path].Readable? {
        text := Some(files[path].text);
      } else {
        text := None;
      }
    }

    /** `fs.writeFile(path, text)`: replaces the file's content, unless the write fails. */
    method WriteFile(path: string, text: string) returns (ok: bool)
      modifies this
      ensures ok <==> path !in unwritable
      ensures dist == if ok then old(dist)[path := text] else old(dist)
    {
      ok := path !in unwritable;
      if ok {
        dist := dist[path := text];
      }
    }
  }

  /** `JSON.parse(text)`, with a SyntaxError written as None. */
  function Parse(text: JsonText): Option<Json> {
    match text
    case Malformed => None
    case WellFormed(v) => Some(v)
  }

  /** What `readJson(path)` yields on a given file system: the parsed value, or None (JavaScript's null). */
  function Load(files: map<string, Stored>, path: string): Option<Json> {
    if path in files && files[path].Readable? then Parse(files[path].text) else None
  }

  /**
   * `readJson(path)`: read the text, then parse it. A missing file, an
   * unreadable file and a syntax error all come back as None; it never
   * throws.
   */
  method ReadJson(disk: Disk, path: string) returns (r: Option<Json>)
    ensures r == Load(disk.files, path)
    ensures r.None? <==>
              path !in disk.files || disk.files[path].Unreadable? || disk.files[path].text.Malformed?
    ensures r.Some? ==> disk.files[path] == Readable(WellFormed(r.value))
  {
    var data := disk.ReadFile(path);
    if data.None? {
      return None;
    }
    r := Parse(data.value);
  }

  /** The output directory after the writes `ws` land in order: a later write to a path replaces an earlier one. */
  function Overwrite(dist: map<string, string>, ws: seq<(string, string)>): map<string, string> {
    if ws == [] then dist
    else Overwrite(dist, ws[..|ws| - 1])[ws[|ws| - 1].0 := ws[|ws| - 1].1]
  }

  /** A path no write touches keeps what it had. */
  lemma {:induction false} OverwriteElsewhere(dist: map<string, string>, ws: seq<(string, string)>, path: string)
    requires forall i :: 0 <= i < |ws| ==> ws[i].0 != path
    ensures path in Overwrite(dist, ws) <==> path in dist
    ensures path in dist ==> Overwrite(dist, ws)[path] == dist[path]
  {
    if ws != [] {
      OverwriteElsewhere(dist, ws[..|ws| - 1], path);
    }
  }

  /** Two batches of writes in a row are one batch: the first, then the second. */
  lemma {:induction false} OverwriteAppend(dist: map<string, string>, a: seq<(string, string)>, b: seq<(string, string)>)
    ensures Overwrite(dist, a + b) == Overwrite(Overwrite(dist, a), b)
    decreases |b|
  {
    if b == [] {
      assert a + b == a;
    } else {
      assert (a + b)[..|a + b| - 1] == a + b[..|b| - 1];
      OverwriteAppend(dist, a, b[..|b| - 1]);
    }
  }

  /** A first write that no later write touches is what its path holds at the end. */
  lemma FirstWriteStays(dist: map<string, string>, path: string, text: string, ws: seq<(string, string)>)
    requires forall j :: 0 <= j < |ws| ==> ws[j].0 != path
    ensures path in Overwrite(dist, [(path, text)] + ws)
    ensures Overwrite(dist, [(path, text)] + ws)[path] == text
  {
    var first := [(path, text)];
    OverwriteAppend(dist, first, ws);
    assert first[..0] == [];
    OverwriteElsewhere(Overwrite(dist, first), ws, path);
  }

  /** The writes, applied to an empty directory, laid over the old contents. */
  lemma {:induction false} OverwriteIsUnion(dist: map<string, string>, ws: seq<(string, string)>)
    ensures Overwrite(dist, ws) == dist + Overwrite(map[], ws)
  {
    if ws != [] {
      OverwriteIsUnion(dist, ws[..|ws| - 1]);
    }
  }

  /** Repeating the same writes leaves the directory as the first round left it. */
  lemma OverwriteIdempotent(dist: map<string, string>, ws: seq<(string, string)>)
    ensures Overwrite(Overwrite(dist, ws), ws) == Overwrite(dist, ws)
  {
    OverwriteIsUnion(dist, ws);
    OverwriteIsUnion(Overwrite(dist, ws), ws);
    var m := Overwrite(map[], ws);
    assert (dist + m) + m == dist + m;
  }
}
