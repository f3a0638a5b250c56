/**
 * `main`: scan the arguments, stop on a missing or unreadable docs path,
 * open the writer in the selected mode, index the docs path, close the
 * writer. An IOException from opening or indexing is caught and reported,
 * and then the writer is not closed.
 */
module Driver {
  import opened Wrappers
  import opened Records
  import opened IndexStore
  import opened CommandLine
  import opened Ingest

  /**
   * What the run can see of the machine: the readable paths and what each
   * holds, the index each index location already holds, and the index
   * locations that cannot be opened.
   */
  datatype Env = Env(files: map<string, Node>, indexes: map<string, seq<Record>>, unopenable: set<string>)

  /** How a run ends. */
  datatype Outcome =
    | ArgumentOutOfBounds(index: nat)      // uncaught exception from the scan
    | UsageError                           // no -docs: usage on stderr, exit 1
    | InputPathError(docsPath: string)     // docs path missing or unreadable: exit 1
    | IOErrorReported(writerOpened: bool)  // caught IOException: no close, no timing report
    | Done(indexPath: string, mode: OpenMode, records: seq<Record>)  // writer closed

  /** The index already at `indexPath`, empty when there is none. */
  function PriorIndex(env: Env, indexPath: string): seq<Record> {
    if indexPath in env.indexes then env.indexes[indexPath] else []
  }

  /** The outcome of `main` on `args`. */
  function RunSpec(args: seq<string>, env: Env, parse: Bytes -> Parsed): Outcome {
    match Scan(args)
    case OutOfBounds(k) => ArgumentOutOfBounds(k)
    case Parsed(cfg) =>
      if cfg.docsPath.None? then UsageError
      else if cfg.docsPath.value !in env.files then InputPathError(cfg.docsPath.value)
      else if cfg.indexPath in env.unopenable then IOErrorReported(false)
      else
        var mode := SelectMode(cfg.create);
        match IngestSpec(mode, InitialStore(mode, PriorIndex(env, cfg.indexPath)), env.files[cfg.docsPath.value], parse)
        case Escaped(_, _) => IOErrorReported(true)
        case Completed(t) => Done(cfg.indexPath, mode, t)
  }

  /** `main`. */
  method Run(args: seq<string>, env: Env, parse: Bytes -> Parsed) returns (outcome: Outcome)
    ensures outcome == RunSpec(args, env, parse)
  {
    var scan := ParseArgs(args);
    if scan.OutOfBounds? {
      return ArgumentOutOfBounds(scan.index);
    }
    var cfg := scan.config;
    if cfg.docsPath.None? {
      return UsageError;
    }
    var docDir := cfg.docsPath.value;
    if docDir !in env.files {
      return InputPathError(docDir);
    }
    if cfg.indexPath in env.unopenable {
      return IOErrorReported(false);
    }
    var mode := SelectMode(cfg.create);
    var writer := new Writer(mode, PriorIndex(env, cfg.indexPath));
    var ingested := IndexDocs(writer, env.files[docDir], parse);
    if ingested.Escaped? {
      return IOErrorReported(true);
    }
    writer.Close();
    outcome := Done(cfg.indexPath, mode, writer.records);
  }

  /** The scan's bounds hazard ends the run, and only when the last argument is a value flag read as a flag. */
  lemma RunOutOfBounds(p: seq<string>, flag: string, env: Env, parse: Bytes -> Parsed)
    ensures RunSpec(p + [flag], env, parse).ArgumentOutOfBounds? <==> TakesValue(flag) && Tokenize(p).Tokens?
    ensures RunSpec(p + [flag], env, parse).ArgumentOutOfBounds? ==>
      RunSpec(p + [flag], env, parse).index == |p + [flag]|
  {
    DanglingIff(p, flag);
  }

  /**
   * The fatal preconditions: no `-docs` gives the usage error, a docs path
   * the machine cannot read gives the input path error, and in both cases
   * the run stops before the writer is opened.
   */
  lemma RunFatal(args: seq<string>, env: Env, parse: Bytes -> Parsed)
    ensures RunSpec(args, env, parse) == UsageError <==>
      Scan(args).Parsed? && Scan(args).config.docsPath.None?
    ensures RunSpec(args, env, parse).InputPathError? <==>
      Scan(args).Parsed? && Scan(args).config.docsPath.Some? && Scan(args).config.docsPath.value !in env.files
    ensures RunSpec(args, env, parse).InputPathError? ==>
      Scan(args).config.docsPath == Some(RunSpec(args, env, parse).docsPath)
  {
  }

  /**
   * A finished run used the index path and the mode the arguments chose:
   * CREATE without `-update`, CREATE_OR_APPEND with it, never APPEND.
   */
  lemma RunMode(args: seq<string>, env: Env, parse: Bytes -> Parsed)
    requires RunSpec(args, env, parse).Done?
    ensures Scan(args).Parsed?
    ensures RunSpec(args, env, parse).indexPath == Scan(args).config.indexPath
    ensures RunSpec(args, env, parse).mode == (if Scan(args).config.create then Create else CreateOrAppend)
    ensures RunSpec(args, env, parse).mode != Append
  {
  }

  /**
   * The single-file case does not isolate failures: a file that cannot be
   * read or parsed makes the IOException escape to `main`, which reports
   * it and skips closing the writer.
   */
  lemma RunSingleFileFailure(args: seq<string>, env: Env, parse: Bytes -> Parsed)
    requires Scan(args).Parsed? && Scan(args).config.docsPath.Some?
    requires Scan(args).config.docsPath.value in env.files
    requires Scan(args).config.indexPath !in env.unopenable
    requires env.files[Scan(args).config.docsPath.value].RegularFile?
    requires Extract(env.files[Scan(args).config.docsPath.value].file, parse).None?
    ensures RunSpec(args, env, parse) == IOErrorReported(true)
  {
  }

  /**
   * A CREATE run over a directory whose walk visits every entry finishes,
   * and the index holds exactly the records of the files that read and
   * parsed, in walk order, whatever the index held before.
   */
  lemma RunCreateDirectory(args: seq<string>, env: Env, parse: Bytes -> Parsed, items: seq<Item>)
    requires Scan(args).Parsed? && Scan(args).config.create
    requires Scan(args).config.docsPath.Some?
    requires Scan(args).config.docsPath.value in env.files
    requires env.files[Scan(args).config.docsPath.value] == Directory(items)
    requires Scan(args).config.indexPath !in env.unopenable
    requires AllVisited(items)
    ensures RunSpec(args, env, parse) == Done(Scan(args).config.indexPath, Create, Built(items, parse))
  {
    WalkCreate([], items, parse);
    assert [] + Built(items, parse) == Built(items, parse);
  }

  /**
   * An update run over such a directory finishes; each path holds the last
   * record built for it, and every other path keeps the records the prior
   * index had for it.
   */
  lemma RunUpdateDirectory(args: seq<string>, env: Env, parse: Bytes -> Parsed, items: seq<Item>, p: string)
    requires Scan(args).Parsed? && !Scan(args).config.create
    requires Scan(args).config.docsPath.Some?
    requires Scan(args).config.docsPath.value in env.files
    requires env.files[Scan(args).config.docsPath.value] == Directory(items)
    requires Scan(args).config.indexPath !in env.unopenable
    requires AllVisited(items)
    ensures RunSpec(args, env, parse).Done?
    ensures RecordsAt(RunSpec(args, env, parse).records, p) ==
      LastOr(RecordsAt(Built(items, parse), p), RecordsAt(PriorIndex(env, Scan(args).config.indexPath), p))
  {
    var prior := PriorIndex(env, Scan(args).config.indexPath);
    WalkUpdate(CreateOrAppend, prior, items, parse, p);
  }

  /** A parser that knows three documents, used by the scenario below. */
  function ScenarioParser(): Bytes -> Parsed {
    (b: Bytes) =>
      if b == [1] then ParseOk(DocData(Some("A"), Some("one")))
      else if b == [2] then ParseOk(DocData(Some("B"), Some("two")))
      else if b == [3] then ParseOk(DocData(Some("A"), Some("ONE")))
      else ParseFail
  }

  // a.html, b.html, and a.html after its body changed
  const FileA := FileEntry("docs/a.html", 10, Some([1]))
  const FileB := FileEntry("docs/b.html", 20, Some([2]))
  const FileA2 := FileEntry("docs/a.html", 30, Some([3]))

  const RecordA := Record("docs/a.html", 10, "A\none")
  const RecordB := Record("docs/b.html", 20, "B\ntwo")
  const RecordA2 := Record("docs/a.html", 30, "A\nONE")

  lemma ScenarioRecords()
    ensures Extract(FileA, ScenarioParser()) == Some(RecordA)
    ensures Extract(FileB, ScenarioParser()) == Some(RecordB)
    ensures Extract(FileA2, ScenarioParser()) == Some(RecordA2)
    ensures RecordA.path == RecordA2.path != RecordB.path
  {
    var parse := ScenarioParser();
    var one: Bytes, two: Bytes, three: Bytes := [1], [2], [3];
    assert two != one by { assert two[0] != one[0]; }
    assert three != one && three != two by { assert three[0] != one[0] && three[0] != two[0]; }
    assert RecordA.path != RecordB.path by { assert RecordA.path[5] != RecordB.path[5]; }
    assert parse(one) == ParseOk(DocData(Some("A"), Some("one")));
    assert parse(two) == ParseOk(DocData(Some("B"), Some("two")));
    assert parse(three) == ParseOk(DocData(Some("A"), Some("ONE")));
    assert ComposeContents("A", "one") == "A\none";
    assert ComposeContents("B", "two") == "B\ntwo";
    assert ComposeContents("A", "ONE") == "A\nONE";
  }

  /**
   * Indexing a directory holding a.html ("A", "one") and b.html ("B",
   * "two") in CREATE mode gives two records keyed by their paths, with
   * contents "A\none" and "B\ntwo".
   */
  lemma ScenarioCreate()
    ensures RunSpec(["-docs", "docs"], Env(map["docs" := Directory([Visit(FileA), Visit(FileB)])], map[], {}), ScenarioParser())
      == Done("index", Create, [RecordA, RecordB])
  {
    var args := ["-docs", "docs"];
    assert args[2..] == [];
    assert Scan(args) == Parsed(Config("index", Some("docs"), true)) by {
      assert Tokenize(args) == Tokens([DocsFlag("docs")]);
      assert [DocsFlag("docs")][..0] == [];
    }
    var items := [Visit(FileA), Visit(FileB)];
    ScenarioRecords();
    assert items[1..] == [Visit(FileB)] && items[1..][1..] == [];
    assert Built(items[1..][1..], ScenarioParser()) == [];
    assert Built(items[1..], ScenarioParser()) == [RecordB];
    assert Built(items, ScenarioParser()) == [RecordA, RecordB];
    RunCreateDirectory(args, Env(map["docs" := Directory(items)], map[], {}), ScenarioParser(), items);
  }

  lemma ScenarioUpdateScan()
    ensures Scan(["-update", "-docs", "docs"]) == Parsed(Config("index", Some("docs"), false))
  {
    var args := ["-update", "-docs", "docs"];
    assert args[1..] == ["-docs", "docs"] && args[1..][2..] == [];
    assert Tokenize(args) == Tokens([UpdateFlag, DocsFlag("docs")]);
    assert [UpdateFlag, DocsFlag("docs")][..1] == [UpdateFlag];
    assert [UpdateFlag][..0] == [];
  }

  lemma ScenarioReplacements()
    ensures Replaced([RecordA, RecordB], RecordA2.path, RecordA2) == [RecordB, RecordA2]
    ensures Replaced([RecordB, RecordA2], RecordB.path, RecordB) == [RecordA2, RecordB]
  {
    ScenarioRecords();
    assert WithoutPath([RecordB], RecordA2.path) == [RecordB];
    assert WithoutPath([RecordA, RecordB], RecordA2.path) == [RecordB];
    assert WithoutPath([RecordA2], RecordB.path) == [RecordA2];
    assert WithoutPath([RecordB, RecordA2], RecordB.path) == [RecordA2];
  }

  lemma ScenarioUpdateWalk()
    ensures WalkSpec(CreateOrAppend, [RecordA, RecordB], [Visit(FileA2), Visit(FileB)], ScenarioParser())
      == Completed([RecordA2, RecordB])
  {
    ScenarioRecords();
    var parse := ScenarioParser();
    var items := [Visit(FileA2), Visit(FileB)];
    assert items[1..] == [Visit(FileB)] && items[1..][1..] == [];
    var s1 := [RecordB, RecordA2];
    ScenarioReplacements();
    WalkVisit(CreateOrAppend, [RecordA, RecordB], items, parse);
    WalkVisit(CreateOrAppend, s1, items[1..], parse);
  }

  /**
   * Running again with `-update` after a.html's body became "ONE" still
   * gives two records, a.html's now with contents "A\nONE".
   */
  lemma ScenarioUpdate()
    ensures RunSpec(["-update", "-docs", "docs"],
                    Env(map["docs" := Directory([Visit(FileA2), Visit(FileB)])], map["index" := [RecordA, RecordB]], {}),
                    ScenarioParser())
      == Done("index", CreateOrAppend, [RecordA2, RecordB])
  {
    ScenarioUpdateScan();
    ScenarioUpdateWalk();
  }
}
