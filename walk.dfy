/** The per-entry policy of the source-tree walk (`processFile`) and the builder table (`builders`). */
module Walk {
  import opened Errors
  import opened Strings
  import opened Paths

  /** What kind of file a walk entry is: `os.FileMode` as far as the walk asks. */
  datatype FileMode = Regular | Directory | Irregular

  /** The metadata of a walk entry: its base name and its mode (`os.FileInfo`). */
  datatype FileInfo = FileInfo(name: string, mode: FileMode) {
    predicate IsDir() { mode == Directory }
    predicate IsRegular() { mode == Regular }
  }

  /** The converters, one per entry of the builder table. */
  datatype Builder = Markdown | GraphvizDot

  /** `builders`: file extension to converter. */
  const Builders: map<string, Builder> := map[".md" := Markdown, ".dot" := GraphvizDot]

  /** Where a converter writes the output for `path`. */
  function OutputOf(b: Builder, path: string): string {
    match b
    case Markdown => MarkdownTarget(path)
    case GraphvizDot => DotTarget(path)
  }

  /** What `processFile` decides to do with one entry. */
  datatype Decision =
    | Propagate(err: Error)   // hand the walk's own error back
    | SkipDir                 // return `filepath.SkipDir`
    | Ignore                  // return nil without converting
    | Build(builder: Builder) // run this converter on the entry

  /** What `processFile` returns to `filepath.Walk`. */
  datatype WalkReturn = Nil | SkipDirSignal | Failure(err: Error)

  /**
   * The policy of `processFile`. `err` is the error the walk reports for the
   * entry, if any; then `info` is not looked at. Otherwise the name is never
   * empty, as the source reads its first byte.
   */
  function Decide(path: string, info: FileInfo, err: Option<Error>): (d: Decision)
    requires err.Some? || |info.name| > 0
    ensures err.Some? <==> d.Propagate?
    ensures d.Propagate? ==> d.err == err.value
    ensures d == SkipDir <==> err.None? && (path == OutputDir || (info.name[0] == '.' && info.IsDir() && info.name != "."))
    ensures d.Build? <==>
      && err.None? && path != OutputDir && info.name[0] != '.'
      && info.IsRegular() && info.name != "README.md" && Ext(info.name) in Builders
    ensures d.Build? ==> d.builder == Builders[Ext(info.name)]
  {
    if err.Some? then Propagate(err.value)
    else if path == OutputDir then SkipDir
    else if info.name[0] == '.' then
      if info.IsDir() && info.name != "." then SkipDir else Ignore
    else if !info.IsRegular() then Ignore
    else if info.name == "README.md" then Ignore
    else
      var ext := Ext(info.name);
      if ext in Builders then Build(Builders[ext]) else Ignore
  }

  /**
   * `processFile`: carries out the decision. `convert` stands for the
   * converters, which read the file and write the output; it returns the
   * error a converter fails with, if any.
   */
  function ProcessFile(path: string, info: FileInfo, err: Option<Error>,
                       convert: (Builder, string, FileInfo) -> Option<Error>): (r: WalkReturn)
    requires err.Some? || |info.name| > 0
    ensures err.Some? ==> r == Failure(err.value)
    ensures r == SkipDirSignal <==> Decide(path, info, err) == SkipDir
    ensures Decide(path, info, err) == Ignore ==> r == Nil
    ensures r.Failure? && err.None? ==>
      && Decide(path, info, err).Build?
      && var c := convert(Decide(path, info, err).builder, path, info);
      c.Some? && r.err == BuildFailed(path, c.value)
  {
    match Decide(path, info, err)
    case Propagate(e) => Failure(e)
    case SkipDir => SkipDirSignal
    case Ignore => Nil
    case Build(b) =>
      match convert(b, path, info)
      case None => Nil
      case Some(e) => Failure(BuildFailed(path, e))
  }

  /** A converter runs only when the decision is to build: otherwise the result does not depend on it. */
  lemma ConvertsOnlyWhenBuilding(path: string, info: FileInfo, err: Option<Error>,
                                 c1: (Builder, string, FileInfo) -> Option<Error>,
                                 c2: (Builder, string, FileInfo) -> Option<Error>)
    requires err.Some? || |info.name| > 0
    requires !Decide(path, info, err).Build?
    ensures ProcessFile(path, info, err, c1) == ProcessFile(path, info, err, c2)
  {
  }

  /** When building, success is nil and a converter's failure is wrapped with the path. */
  lemma BuildOutcome(path: string, info: FileInfo, convert: (Builder, string, FileInfo) -> Option<Error>)
    requires |info.name| > 0
    requires Decide(path, info, None).Build?
    ensures var b := Decide(path, info, None).builder;
      ProcessFile(path, info, None, convert) ==
        if convert(b, path, info).None? then Nil else Failure(BuildFailed(path, convert(b, path, info).value))
  {
  }

  /** Exactly the extensions `.md` and `.dot` select a converter, and every name ending in one selects the right one. */
  lemma BuilderOfName(stem: string)
    ensures forall e :: e in Builders <==> e == ".md" || e == ".dot"
    ensures Ext(stem + ".md") in Builders && Builders[Ext(stem + ".md")] == Markdown
    ensures Ext(stem + ".dot") in Builders && Builders[Ext(stem + ".dot")] == GraphvizDot
  {
    assert IsExt(".md") by { assert ".md"[1..] == "md"; }
    assert IsExt(".dot") by { assert ".dot"[1..] == "dot"; }
    ExtOfSuffix(stem, ".md");
    ExtOfSuffix(stem, ".dot");
  }

  /**
   * A built entry whose path ends in its name is written to `output/` + the
   * path without its source extension + the converter's output extension.
   */
  lemma BuildTarget(path: string, info: FileInfo)
    requires |info.name| > 0
    requires HasSuffix(path, info.name)
    requires Decide(path, info, None).Build?
    ensures var b := Decide(path, info, None).builder;
      && (b == Markdown ==> exists s :: path == s + ".md" && OutputOf(b, path) == "output/" + s + ".html")
      && (b == GraphvizDot ==> exists s :: path == s + ".dot" && OutputOf(b, path) == "output/" + s + ".svg")
  {
    var e := Ext(info.name);
    assert e in Builders && Decide(path, info, None).builder == Builders[e];
    SuffixOfSuffix(path, info.name, e);
    TargetOfBuilt(path, e);
  }

  /** The output path of a source that ends in a table extension. */
  lemma TargetOfBuilt(path: string, e: string)
    requires e in Builders && HasSuffix(path, e)
    ensures Builders[e] == Markdown ==> exists s :: path == s + ".md" && OutputOf(Markdown, path) == "output/" + s + ".html"
    ensures Builders[e] == GraphvizDot ==> exists s :: path == s + ".dot" && OutputOf(GraphvizDot, path) == "output/" + s + ".svg"
  {
    var s := path[..|path| - |e|];
    assert path == s + e;
    if e == ".md" {
      TargetOfSource(s, ".md", ".html");
    } else {
      TargetOfSource(s, ".dot", ".svg");
    }
  }

  /** Hidden directories and the output directory are skipped as whole subtrees; the root is entered. */
  lemma WalkSkipExamples()
    ensures Decide(".git", FileInfo(".git", Directory), None) == SkipDir
    ensures Decide("output", FileInfo("output", Directory), None) == SkipDir
    ensures Decide(".", FileInfo(".", Directory), None) == Ignore
    ensures Decide("docs/output", FileInfo("output", Directory), None) == Ignore
  {
  }

  /** Hidden files and every `README.md` produce no output. */
  lemma WalkIgnoreExamples()
    ensures Decide(".gitignore", FileInfo(".gitignore", Regular), None) == Ignore
    ensures Decide("README.md", FileInfo("README.md", Regular), None) == Ignore
    ensures Decide("docs/README.md", FileInfo("README.md", Regular), None) == Ignore
  {
  }

  /**
   * Any visible regular file `stem.md` or `stem.dot` other than `README.md`,
   * wherever it lies in the tree, goes to the converter its extension names
   * (`notes.md` to the Markdown converter, `diagram.dot` to the Graphviz one).
   */
  lemma SourceBuilds(path: string, stem: string, e: string)
    requires e in Builders
    requires |stem| > 0 && stem[0] != '.' && stem + e != "README.md"
    requires HasSuffix(path, stem + e)
    ensures Decide(path, FileInfo(stem + e, Regular), None) == Build(Builders[e])
  {
    assert IsExt(".md") by { assert ".md"[1..] == "md"; }
    assert IsExt(".dot") by { assert ".dot"[1..] == "dot"; }
    ExtOfSuffix(stem, e);
    SuffixOfSuffix(path, stem + e, e);
    assert path[|path| - |e|] == e[0] == '.';
    assert path != OutputDir;
  }
}
