/**
 * `CodeWalker`: lists a project's files with the language of each, then indexes every
 * Go file with the Go indexer. The directory walk, the file reads and the tree-sitter
 * parser are inputs: a listing of walk entries, a read function and a parse function.
 */
module Tree {
  import opened Wrappers
  import opened Text
  import opened Syntax
  import opened Memory
  import opened Indexer

  // ---------------------------------------------------------------------------
  // `get_language`

  /** Index of the last '.' of `s`, or -1 when it has none. */
  function LastDot(s: string): (k: int)
    ensures -1 <= k < |s|
  {
    if s == [] then -1
    else if s[|s| - 1] == '.' then |s| - 1
    else LastDot(s[..|s| - 1])
  }

  /** `LastDot` finds a '.', and no '.' follows it. */
  lemma {:induction false} LastDotIsLast(s: string)
    ensures var k := LastDot(s); (k >= 0 ==> s[k] == '.') && forall i | k < i < |s| :: s[i] != '.'
  {
    if s != [] && s[|s| - 1] != '.' {
      LastDotIsLast(s[..|s| - 1]);
      assert forall i | 0 <= i < |s| - 1 :: s[..|s| - 1][i] == s[i];
    }
  }

  /** `path.split('.').last()`: what follows the last '.' (the whole path when it has none). */
  function LastSegment(s: string): (r: string)
    ensures |r| <= |s| && r == s[|s| - |r|..]
  {
    var k := LastDot(s);
    s[k + 1..]
  }

  /** `get_language`: `go` when the last '.'-separated segment of the path is `go`, else `unknown`. */
  function GetLanguage(file: string): (r: string)
    ensures r == "go" || r == "unknown"
  {
    if LastSegment(file) == "go" then "go" else "unknown"
  }

  /** The last segment of a path that ends in `.go` is `go`. */
  lemma GoFileSegment(file: string)
    requires |file| >= 3 && file[|file| - 3..] == ".go"
    ensures LastSegment(file) == "go"
  {
    var n := |file|;
    assert file[n - 3] == '.' && file[n - 2] == 'g' && file[n - 1] == 'o';
    assert LastDot(file[..n - 1]) == n - 3 by { assert file[..n - 1][..n - 2] == file[..n - 2]; }
  }

  /** The bare name `go` has no '.', so it is its own last segment. */
  lemma BareGoSegment()
    ensures LastSegment("go") == "go"
  {
    var file := "go";
    assert file[0] != '.' && file[1] != '.';
    assert LastDot(file) == -1;
  }

  /** A path whose last segment is `go` is the bare name `go` or ends in `.go`. */
  lemma GoSegmentFile(file: string)
    requires LastSegment(file) == "go"
    ensures file == "go" || (|file| >= 3 && file[|file| - 3..] == ".go")
  {
    var n, r := |file|, LastSegment(file);
    LastDotIsLast(file);
    if |r| < n {
      assert file[n - 3] == '.';
      assert file[n - 3..] == ['.'] + r;
    }
  }

  /** A path is classified `go` exactly when it ends in `.go` or is the bare name `go`. */
  lemma GetLanguageGo(file: string)
    ensures GetLanguage(file) == "go" <==> file == "go" || (|file| >= 3 && file[|file| - 3..] == ".go")
  {
    if file == "go" {
      BareGoSegment();
    } else if |file| >= 3 && file[|file| - 3..] == ".go" {
      GoFileSegment(file);
    } else if LastSegment(file) == "go" {
      GoSegmentFile(file);
    }
  }

  // ---------------------------------------------------------------------------
  // `get_files_and_language`

  /** A file of the project and its language. */
  datatype FileData = FileData(file: string, language: string)

  /**
   * One item of the recursive directory walk, in walk order: an entry that could not be
   * read, or a path with whether it is a regular file.
   */
  datatype WalkEntry = Unreadable | Visited(path: string, isFile: bool)

  /** What the walk contributes to the file list: each readable regular file, with its language. */
  function FileOf(e: WalkEntry): seq<FileData> {
    if e.Visited? && e.isFile then [FileData(e.path, GetLanguage(e.path))] else []
  }

  /** The file list of a walk, in walk order. */
  function FilesOf(walk: seq<WalkEntry>): seq<FileData> {
    if walk == [] then [] else FilesOf(walk[..|walk| - 1]) + FileOf(walk[|walk| - 1])
  }

  /**
   * The file list holds exactly the readable regular files of the walk, each with the
   * language of its path (directories and unreadable entries are dropped).
   */
  lemma {:induction false} FilesOfMembers(walk: seq<WalkEntry>, f: FileData)
    ensures f in FilesOf(walk) <==> Visited(f.file, true) in walk && f.language == GetLanguage(f.file)
  {
    if walk != [] {
      var init, last := walk[..|walk| - 1], walk[|walk| - 1];
      FilesOfMembers(init, f);
      assert walk == init + [last];
      var v := Visited(f.file, true);
      assert v in walk <==> v in init || v == last;
      assert f in FilesOf(walk) <==> f in FilesOf(init) || f in FileOf(last);
    }
  }

  lemma FilesOfSnoc(w: seq<WalkEntry>, e: WalkEntry)
    ensures FilesOf(w + [e]) == FilesOf(w) + FileOf(e)
  {
    var we := w + [e];
    assert we[..|we| - 1] == w && we[|we| - 1] == e;
  }

  /** The file list keeps walk order: the list of a walk is the lists of its parts, in order. */
  lemma {:induction false} FilesOfAppend(a: seq<WalkEntry>, b: seq<WalkEntry>)
    ensures FilesOf(a + b) == FilesOf(a) + FilesOf(b)
    decreases |b|
  {
    if b == [] {
      assert a + b == a;
    } else {
      var init, last := b[..|b| - 1], b[|b| - 1];
      assert a + b == (a + init) + [last] && b == init + [last];
      FilesOfAppend(a, init);
      FilesOfSnoc(a + init, last);
      FilesOfSnoc(init, last);
    }
  }

  /** `get_files_and_language`: keep each readable regular file, with its language, in walk order. */
  method GetFilesAndLanguage(walk: seq<WalkEntry>) returns (files: seq<FileData>)
    ensures files == FilesOf(walk)
  {
    files := [];
    for i := 0 to |walk|
      invariant files == FilesOf(walk[..i])
    {
      var entry := walk[i];
      if entry.Visited? && entry.isFile {
        var language := GetLanguage(entry.path);
        files := files + [FileData(entry.path, language)];
      }
      assert walk[..i + 1] == walk[..i] + [entry];
      FilesOfSnoc(walk[..i], entry);
    }
    assert walk[..|walk|] == walk;
  }

  // ---------------------------------------------------------------------------
  // `index_project`

  /** Why indexing a project stopped: a Go file could not be read as UTF-8 text, or not parsed. */
  datatype IndexError = ReadFailed(file: string) | ParseFailed(file: string)

  /**
   * The parser yields trees the indexer can read without a panic: every tree it builds
   * for a UTF-8 text has node ranges inside the text that decode (tree-sitter nodes
   * start and end on character boundaries).
   */
  ghost predicate ParserSound(parse: bytes -> Option<Node>) {
    forall text | ValidUtf8(text) && parse(text).Some? ::
      PackageSearchOk(parse(text).value, text) && Traversable(parse(text).value, text)
  }

  /** A Go file that reads as UTF-8 text (`read_to_string`) and parses. */
  predicate FileOk(f: FileData, read: string -> Option<bytes>, parse: bytes -> Option<Node>) {
    read(f.file).Some? && ValidUtf8(read(f.file).value) && parse(read(f.file).value).Some?
  }

  /** The error a Go file that is not `FileOk` stops the run with. */
  function Failure(f: FileData, read: string -> Option<bytes>): IndexError {
    if read(f.file).Some? && ValidUtf8(read(f.file).value) then ParseFailed(f.file) else ReadFailed(f.file)
  }

  /** The store after a run so far, and the error that stopped it, if any. */
  datatype Run = Run(store: map<bytes, IndexData>, error: Option<IndexError>)

  /** One file of the loop: a Go file is read, parsed and indexed; any other file is skipped. */
  function IndexFile(m: map<bytes, IndexData>, f: FileData, read: string -> Option<bytes>,
                     parse: bytes -> Option<Node>): (run: Run)
    requires ParserSound(parse)
    ensures run.error.None? <==> f.language != "go" || FileOk(f, read, parse)
    ensures run.error.Some? ==> run.error.value == Failure(f, read) && run.store == m
    ensures f.language != "go" ==> run.store == m
    ensures f.language == "go" && FileOk(f, read, parse) ==>
      run.store == IndexResult(m, parse(read(f.file).value).value, read(f.file).value)
    ensures m.Keys <= run.store.Keys
  {
    if f.language != "go" then Run(m, None)
    else match read(f.file)
      case None => Run(m, Some(ReadFailed(f.file)))
      case Some(text) =>
        if !ValidUtf8(text) then Run(m, Some(ReadFailed(f.file)))
        else match parse(text)
          case None => Run(m, Some(ParseFailed(f.file)))
          case Some(root) => Run(IndexResult(m, root, text), None)
  }

  /** The loop over the files, in order, stopping at the first error. */
  function IndexFiles(m: map<bytes, IndexData>, fs: seq<FileData>, read: string -> Option<bytes>,
                      parse: bytes -> Option<Node>): (run: Run)
    requires ParserSound(parse)
    ensures m.Keys <= run.store.Keys
  {
    if fs == [] then Run(m, None)
    else
      var run := IndexFiles(m, fs[..|fs| - 1], read, parse);
      if run.error.Some? then run else IndexFile(run.store, fs[|fs| - 1], read, parse)
  }

  /**
   * Runs compose in list order, and an error ends the run: files after the one that
   * failed are not read, parsed or indexed.
   */
  lemma {:induction false} IndexFilesAppend(m: map<bytes, IndexData>, a: seq<FileData>, b: seq<FileData>,
                                            read: string -> Option<bytes>, parse: bytes -> Option<Node>)
    requires ParserSound(parse)
    ensures IndexFiles(m, a + b, read, parse)
         == var ra := IndexFiles(m, a, read, parse);
            if ra.error.Some? then ra else IndexFiles(ra.store, b, read, parse)
    decreases |b|
  {
    if b == [] {
      assert a + b == a;
    } else {
      assert (a + b)[..|a + b| - 1] == a + b[..|b| - 1];
      assert (a + b)[|a + b| - 1] == b[|b| - 1];
      IndexFilesAppend(m, a, b[..|b| - 1], read, parse);
    }
  }

  /** The Go files of a list, in order. */
  function GoFiles(fs: seq<FileData>): (r: seq<FileData>)
    ensures forall f | f in r :: f in fs && f.language == "go"
  {
    if fs == [] then []
    else GoFiles(fs[..|fs| - 1]) + (if fs[|fs| - 1].language == "go" then [fs[|fs| - 1]] else [])
  }

  /** Files of any other language are skipped: the run is the run over the Go files alone. */
  lemma {:induction false} IndexFilesSkipsOthers(m: map<bytes, IndexData>, fs: seq<FileData>,
                                                 read: string -> Option<bytes>, parse: bytes -> Option<Node>)
    requires ParserSound(parse)
    ensures IndexFiles(m, fs, read, parse) == IndexFiles(m, GoFiles(fs), read, parse)
  {
    if fs != [] {
      var init, last := fs[..|fs| - 1], fs[|fs| - 1];
      IndexFilesSkipsOthers(m, init, read, parse);
      if last.language == "go" {
        var g := GoFiles(init) + [last];
        assert g[..|g| - 1] == GoFiles(init);
      } else {
        assert GoFiles(fs) == GoFiles(init);
      }
    }
  }

  /** The run succeeds exactly when every Go file of the list reads and parses. */
  lemma {:induction false} IndexFilesOk(m: map<bytes, IndexData>, fs: seq<FileData>,
                                        read: string -> Option<bytes>, parse: bytes -> Option<Node>)
    requires ParserSound(parse)
    ensures IndexFiles(m, fs, read, parse).error.None?
        <==> forall i | 0 <= i < |fs| :: fs[i].language == "go" ==> FileOk(fs[i], read, parse)
  {
    if fs != [] {
      var init := fs[..|fs| - 1];
      IndexFilesOk(m, init, read, parse);
      assert forall i | 0 <= i < |init| :: init[i] == fs[i];
    }
  }

  /** A failed run reports the first Go file that does not read or parse, and why. */
  lemma {:induction false} IndexFilesError(m: map<bytes, IndexData>, fs: seq<FileData>,
                                           read: string -> Option<bytes>, parse: bytes -> Option<Node>)
    requires ParserSound(parse)
    requires IndexFiles(m, fs, read, parse).error.Some?
    ensures exists k | 0 <= k < |fs| ::
      && fs[k].language == "go" && !FileOk(fs[k], read, parse)
      && (forall j | 0 <= j < k :: fs[j].language == "go" ==> FileOk(fs[j], read, parse))
      && IndexFiles(m, fs, read, parse).error.value == Failure(fs[k], read)
  {
    var init := fs[..|fs| - 1];
    assert forall i | 0 <= i < |init| :: init[i] == fs[i];
    if IndexFiles(m, init, read, parse).error.Some? {
      IndexFilesError(m, init, read, parse);
      var k :| 0 <= k < |init| && init[k].language == "go" && !FileOk(init[k], read, parse)
        && (forall j | 0 <= j < k :: init[j].language == "go" ==> FileOk(init[j], read, parse))
        && IndexFiles(m, init, read, parse).error.value == Failure(init[k], read);
      assert fs[k] == init[k];
    } else {
      IndexFilesOk(m, init, read, parse);
      var k := |fs| - 1;
      assert forall j | 0 <= j < k :: fs[j] == init[j];
    }
  }

  /** Some file of the list is a Go file. */
  predicate HasGo(fs: seq<FileData>) {
    exists i | 0 <= i < |fs| :: fs[i].language == "go"
  }

  /** One more file of the loop. */
  lemma IndexFilesStep(m: map<bytes, IndexData>, fs: seq<FileData>, i: nat,
                       read: string -> Option<bytes>, parse: bytes -> Option<Node>)
    requires ParserSound(parse) && i < |fs|
    ensures IndexFiles(m, fs[..i + 1], read, parse)
         == var run := IndexFiles(m, fs[..i], read, parse);
            if run.error.Some? then run else IndexFile(run.store, fs[i], read, parse)
  {
    assert fs[..i + 1][..i] == fs[..i];
  }

  /** Once a prefix of the list fails, the run over the whole list is that failed run. */
  lemma IndexFilesStops(m: map<bytes, IndexData>, fs: seq<FileData>, k: nat,
                        read: string -> Option<bytes>, parse: bytes -> Option<Node>)
    requires ParserSound(parse) && k <= |fs|
    requires IndexFiles(m, fs[..k], read, parse).error.Some?
    ensures IndexFiles(m, fs, read, parse) == IndexFiles(m, fs[..k], read, parse)
  {
    IndexFilesAppend(m, fs[..k], fs[k..], read, parse);
    assert fs[..k] + fs[k..] == fs;
  }

  lemma HasGoStep(fs: seq<FileData>, i: nat)
    requires i < |fs|
    ensures HasGo(fs[..i + 1]) <==> HasGo(fs[..i]) || fs[i].language == "go"
    ensures fs[i].language == "go" ==> HasGo(fs)
  {
    if HasGo(fs[..i + 1]) {
      var k :| 0 <= k < i + 1 && fs[..i + 1][k].language == "go";
      if k < i { assert fs[..i][k] == fs[..i + 1][k]; }
    }
    if HasGo(fs[..i]) {
      var k :| 0 <= k < i && fs[..i][k].language == "go";
      assert fs[..i + 1][k] == fs[..i][k];
    }
    if fs[i].language == "go" {
      assert fs[..i + 1][i] == fs[i];
    }
  }

  class CodeWalker {
    /** The project's files with their languages. */
    const files: seq<FileData>
    /** The Go indexer, with the store it fills. */
    const indexer: GoIndexer

    /** `new_project`: the file list of the walk of the project directory. */
    constructor NewProject(walk: seq<WalkEntry>, indexer: GoIndexer)
      ensures files == FilesOf(walk) && this.indexer == indexer
    {
      var fs := GetFilesAndLanguage(walk);
      files := fs;
      this.indexer := indexer;
    }

    /**
     * The body of `index_project`'s loop for one file: a Go file is read, parsed and
     * indexed; any other file is skipped.
     */
    method IndexOneFile(file: FileData, read: string -> Option<bytes>, parse: bytes -> Option<Node>)
      returns (error: Option<IndexError>)
      requires ParserSound(parse)
      modifies indexer.store
      ensures var run := IndexFile(old(indexer.store.inner), file, read, parse);
        indexer.store.inner == run.store && error == run.error
    {
      if file.language != "go" {
        return None;
      }
      var text := read(file.file);
      if text.None? || !ValidUtf8(text.value) {
        return Some(ReadFailed(file.file));
      }
      var tree := parse(text.value);
      if tree.None? {
        return Some(ParseFailed(file.file));
      }
      indexer.Index(tree.value, text.value);
      error := None;
    }

    /**
     * `index_project`: for each file in order, skip it unless its language is `go`;
     * otherwise take the Go parser (created on first use and reused after), read the
     * file, parse it and index the tree. The first read or parse failure ends the run
     * with that error; the writes of the files before it stay in the store.
     * `parsersCreated` counts the parsers the cache created.
     */
    method IndexProject(read: string -> Option<bytes>, parse: bytes -> Option<Node>)
      returns (r: Result<Unit, IndexError>, parsersCreated: nat)
      requires ParserSound(parse)
      modifies indexer.store
      ensures var run := IndexFiles(old(indexer.store.inner), files, read, parse);
        && indexer.store.inner == run.store
        && (r.Ok? <==> run.error.None?)
        && (r.Err? ==> r.error == run.error.value)
      ensures parsersCreated == if HasGo(files) then 1 else 0
    {
      var parsers: map<string, nat> := map[];
      parsersCreated := 0;
      for i := 0 to |files|
        invariant IndexFiles(old(indexer.store.inner), files[..i], read, parse).error.None?
        invariant indexer.store.inner == IndexFiles(old(indexer.store.inner), files[..i], read, parse).store
        invariant "go" in parsers <==> HasGo(files[..i])
        invariant parsersCreated == if HasGo(files[..i]) then 1 else 0
      {
        IndexFilesStep(old(indexer.store.inner), files, i, read, parse);
        HasGoStep(files, i);
        var file := files[i];
        if file.language == "go" && "go" !in parsers {
          parsers := parsers["go" := parsersCreated];
          parsersCreated := parsersCreated + 1;
        }
        var error := IndexOneFile(file, read, parse);
        if error.Some? {
          r := Err(error.value);
          IndexFilesStops(old(indexer.store.inner), files, i + 1, read, parse);
          return;
        }
      }
      assert files[..|files|] == files;
      r := Ok(Unit);
    }
  }
}
