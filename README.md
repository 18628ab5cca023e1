# The decision logic of the chitin.io site builder

`build.go` walks the source tree of the chitin.io website, converts every
visible regular Markdown or Graphviz file, except `README.md`, to a minified
HTML page or a minified SVG, writes them under `output/`, and commits that
directory to a git branch with git plumbing commands. Most of it calls other code: the Markdown renderer,
the HTML parser, the minifier, `dot`, `git` and the file system. This project
models the parts that decide things, stated on values, and proves what they do:

- `GitOutput` (oneline.dfy): `oneLine`, the parser for the one-line output of
  `git describe`, `git write-tree` and `git commit-tree`.
- `Environ` (environ.dfy): `environReplace`, which sets `GIT_INDEX_FILE` in an
  environment list. It is an in-place method over an array, proved against the
  function `Replaced`.
- `Walk` (walk.dfy): `processFile`, the per-entry policy of the tree walk, and
  the `builders` table. The converters are a function parameter.
- `Markdown` (markdown.dfy): how the converter splits off the title line, and
  the check that the rendered title parses to a leading `<h1>`, whose text
  becomes the page title.
- `Paths` (paths.dfy): `filepath.Ext` and the output path of each converter.
- `Html` (html.dfy): the parsed-node datatype and `childText`. It is a method
  with a loop and recursion, proved against the function `TextOf`.
- `Bytes`, `Strings` and `Errors` (bytes.dfy, strings.dfy, errors.dfy): byte
  strings, `bytes.IndexByte`, `strings.HasPrefix`/`HasSuffix`/`TrimSuffix`,
  and one `Error` datatype with a case for each error the core returns.

Go byte slices are `seq<byte>`. Paths and environment entries are `string`.
The string `oneLine` returns is kept as the same bytes. A Go `error` is an
`Option<Error>` or a `Result<T>`. Errors from code outside the model are
`External`. `fmt.Errorf` wrapping is a constructor that keeps its cause
(`BuildFailed(path, cause)`, `CannotParseGeneratedHtml(cause)`).

Three behaviours of the code that are easy to misread:

- The Markdown split rejects any input without a newline (`"markdown has no
  content"`), not only empty input. `# Title` with no newline is rejected
  there, and `"\n"` passes the split and is rejected later by the header check.
- Only the top-level path `output` is skipped. A directory `docs/output` is
  walked like any other (`Walk.WalkSkipExamples`).
- `README.md` is skipped by name in every directory, not only at the root.

## Model

| member | source | states |
|---|---|---|
| `Bytes.IndexByte` | build.go:323 | the index of the first occurrence of the byte, or -1 exactly when the byte is absent |
| `GitOutput.OneLine` | build.go:315-327 | succeeds iff the input is non-empty, ends in a newline and has no earlier newline; the line plus a newline is then the input; each of the three errors occurs exactly under its own condition and carries the bytes the message quotes |
| `GitOutput.OneLineIff` | build.go:319-326 | `OneLine(b) == Ok(line)` iff `line` has no newline and `b == line + "\n"` |
| `GitOutput.OneLineRoundTrip` | build.go:322-326 | parsing a newline-free line followed by a newline gives the line back |
| `GitOutput.OneLineErrors` | build.go:316-325 | every failure is "must not be empty", "must end in newline" or "must be a single line" |
| `GitOutput.OneLineExamples` | build.go:315-327 | `"abc\n"` gives `"abc"`; `""`, `"abc"` and `"abc\ndef\n"` fail with the matching error |
| `Environ.Without` | build.go:248-253 | the entries that do not start with the prefix, in their original order |
| `Environ.Replaced` | build.go:245-256 | the entries without the prefix `name=`, followed by `name=val` |
| `Environ.WithoutMembers` | build.go:248-253 | an entry is kept iff it is in the list and does not start with the prefix |
| `Environ.WithoutAppend` | build.go:248-253 | the filter distributes over concatenation, so kept entries keep their relative order |
| `Environ.WithoutLength` | build.go:246-253 | the filter never lengthens the list, and a filter that keeps every entry returns the list unchanged |
| `Environ.WithoutIdentity` | build.go:248-253 | a list with no entry having the prefix is returned unchanged |
| `Environ.WithoutRemoves` | build.go:249-250 | an entry with the prefix is always dropped, so the list gets shorter |
| `Environ.WithoutIdempotent` | build.go:248-253 | filtering twice equals filtering once |
| `Environ.ReplacedShape` | build.go:245-256 | the result ends with `name=val`, that is its only `name=` entry, and the other entries are exactly the entries of `env` without the prefix |
| `Environ.ReplacedTwice` | build.go:245-256 | replacing a variable twice equals replacing it once with the second value |
| `Environ.ReplacedAppends` | build.go:254 | a list with no `name=` entry just gains `name=val` at its end |
| `Environ.Compact` | build.go:246-253 | the loop leaves the kept entries, in order, at the front of the array and does not touch the positions after them |
| `Environ.Grow` | build.go:254 | `append` on a full slice gives a fresh array holding the old entries and then the new one |
| `Environ.EnvironReplace` | build.go:245-256 | the returned slice is `Replaced(env, name, val)`; it aliases `env` when an entry was removed, and is a fresh array otherwise, with `env` unchanged |
| `Html.TextOf` | build.go:59-70 | the text all children of a node contribute, in order |
| `Html.TextOfFirst` | build.go:61-68 | the text the first k children contribute |
| `Html.Contribution` | build.go:62-67 | the switch: a text child gives its data, an element child its own text, any other node nothing |
| `Html.ChildText` | build.go:59-70 | the string built by the sibling loop is `TextOf(node)` |
| `Html.TextOfAppend` | build.go:61-68 | the text of children `a + b` is the text of `a` followed by that of `b` |
| `Html.TextOfFirstPrefix` | build.go:61-68 | the text of the first k children depends only on those children |
| `Html.TextOfChildrenOnly` | build.go:59-70 | a node's text depends only on its children, not on its own kind or data |
| `Html.TextOfWrapped` | build.go:65-66 | wrapping the children in an element leaves the text unchanged |
| `Html.TextOfIgnores` | build.go:62-67 | a child that is neither text nor an element contributes nothing, wherever it stands |
| `Html.TextOfSingle` | build.go:60-69 | no children gives `""`; one text child gives its data; one element child gives that element's text |
| `Markdown.SplitTitle` | build.go:105-109 | fails, with "markdown has no content", iff the input has no newline; otherwise the title has no newline and title + newline + rest is the input |
| `Markdown.SplitTitleRoundTrip` | build.go:105-109 | a newline-free title and any rest joined by a newline split back into that title and rest |
| `Markdown.SplitTitleExamples` | build.go:105-108 | the empty input and `# T` without a newline fail; `"\n"` splits into two empty parts |
| `Markdown.PageTitle` | build.go:143-152 | a parse error is wrapped; a fragment not starting with an `h1` element fails with "does not start with a header"; otherwise the title is the heading's text |
| `Markdown.StartsWithHeader` | build.go:147-149 | the fragment is non-empty and its first node is an element whose data is `h1`; the element's data stands in for the source's `DataAtom` test against `atom.H1` |
| `Markdown.PageTitleExample` | build.go:152 | the title of `<h1>A <em>B</em></h1>` is `A B` |
| `Paths.OutputDir` | build.go:38 | the constant `outputDir`, `"output"` |
| `Paths.Join` | build.go:175 | `filepath.Join(dir, p)` as `dir + "/" + p`, without cleaning (also used at build.go:200) |
| `Paths.Ext` | build.go:233 | the result is a suffix of the path; it is empty (and then every dot lies before a separator) or one dot followed by neither dot nor separator |
| `Paths.ExtBefore` | build.go:233 | the backward scan keeps the same promises as `Ext` |
| `Paths.ExtOfSuffix` | build.go:233 | a name ending in an extension-shaped suffix has that extension |
| `Paths.Target` | build.go:175 | every output path starts with `output/` and ends in the converter's output extension (`.html` here, `.svg` at build.go:200) |
| `Paths.MarkdownTarget` | build.go:175 | `Target(path, ".md", ".html")`: a source `p.md` is written to `output/p.html` |
| `Paths.DotTarget` | build.go:200 | `Target(path, ".dot", ".svg")`: a source `p.dot` is written to `output/p.svg` |
| `Paths.TargetOfSource` | build.go:175 | a source `p + ext` is written to `output/` + `p` + the new extension |
| `Paths.TargetWithoutSource` | build.go:175 | a path without the source extension keeps its whole name before the new extension |
| `Paths.TargetInjective` | build.go:175 | two sources with the source extension never share an output path |
| `Paths.TargetsDistinct` | build.go:200 | a Markdown output never coincides with a Graphviz output |
| `Strings.HasPrefix` | build.go:249 | `strings.HasPrefix`: the prefix is no longer than the string and equals its first characters |
| `Strings.TrimSuffix` | build.go:175 | trimming a present suffix leaves what precedes it; an absent one leaves the string |
| `Walk.FileInfo.IsDir` | build.go:219 | `info.IsDir()`: the entry's mode is a directory |
| `Walk.FileInfo.IsRegular` | build.go:225 | `info.Mode().IsRegular()`: the entry's mode is a regular file; a directory is never regular |
| `Walk.OutputOf` | build.go:175 | the output path of the converter the table selects: `MarkdownTarget` for Markdown, and `DotTarget` (build.go:200) for Graphviz |
| `Walk.Builders` | build.go:40-43 | the builder table: `.md` maps to the Markdown converter and `.dot` to the Graphviz converter, and no other extension is in it |
| `Walk.Decide` | build.go:207-234 | the walk's own error is propagated unchanged, and only it; SkipDir iff the path is `output` or a hidden directory other than `.`; a conversion iff the entry is a regular, non-hidden file other than `README.md` with an extension in the table, whose builder it selects |
| `Walk.ProcessFile` | build.go:207-241 | an incoming error comes back unchanged; SkipDir exactly as decided; an ignored entry gives nil; any other failure is a converter's error wrapped with the path |
| `Walk.ConvertsOnlyWhenBuilding` | build.go:212-231 | when the decision is not to build, the result is the same whatever the converters do |
| `Walk.BuildOutcome` | build.go:234-240 | when building, success returns nil and a converter failure returns that error wrapped with the path |
| `Walk.BuilderOfName` | build.go:40-43 | exactly `.md` and `.dot` are in the table; any name ending in `.md` selects the Markdown converter, and any ending in `.dot` the Graphviz one |
| `Walk.BuildTarget` | build.go:233-236 | a built entry is written to `output/` + its path without `.md` + `.html`, or without `.dot` + `.svg` |
| `Walk.TargetOfBuilt` | build.go:175 | a path ending in a table extension is written to `output/` + the path without `.md` + `.html`, or without `.dot` + `.svg` |
| `Walk.WalkSkipExamples` | build.go:212-223 | `.git` and `output` are skipped as subtrees; the root `.` and `docs/output` are entered |
| `Walk.WalkIgnoreExamples` | build.go:217-231 | `.gitignore`, `README.md` and `docs/README.md` produce no conversion |
| `Walk.SourceBuilds` | build.go:225-236 | any visible regular `stem.md` or `stem.dot` other than `README.md`, at any depth, goes to the converter its extension names |

## Left out

- The Markdown renderer, the HTML fragment parser, the page template and the minifier (build.go:45-56, 111-173, 195) are library calls. The header check takes the parser's outcome as its input.
- `graphvizDot`'s call to `dot`, and the git commands `gitDescribe`, `gitAddOutput`, `gitWriteTree`, `gitCommit` and `gitUpdateRef` (build.go:182-205, 258-313, 329-367) are subprocess I/O. Only the parser they share, `oneLine`, is modelled.
- `writeToGit` and `run` (build.go:369-425) only order I/O steps. One thing seen in reading them: at build.go:395 the `if` tests the `err` left over from the previous step, so a failing `gitUpdateRef` is not reported.
- `writeFile` (build.go:72-94): its atomicity rests on the file system's `TempFile` and `Rename`, not on logic in this file.
- `filepath.Walk` is library code. The model does not cover the walk's visiting order, or how it acts on SkipDir. The model assumes the clean relative paths the walk produces, and `Join` is modelled as joining with `/`, without cleaning.
- `Walk.Decide`, `Walk.ProcessFile`: when the walk reports no error, the entry's name is assumed non-empty. build.go:217 reads its first byte, and `filepath.Walk` never gives an empty name. When the walk reports an error, `info` is not read, as at build.go:208-210.
- `Paths.Ext` treats `/` as the only path separator, as on Unix.
- Paths, file names and environment entries are Dafny strings, that is, sequences of Unicode scalar values. Go strings are bytes, so the model covers only names and entries that are valid UTF-8: a name such as `"\xff.md"` is converted by build.go:233-236 but cannot be written here. `Name()[0]` at build.go:217 is read as the first character. Every comparison the core makes is against ASCII (`'.'`, `"README.md"`, `".md"`, `".dot"`, `name + "="`), so on every name the model can represent, it behaves as the source does.
- `Html.ChildText`: the `FirstChild`/`NextSibling` links of a node are modelled as a sequence of children, so sibling pointers and parent links are not modelled.
- `Environ.EnvironReplace`: the slice passed in is the whole array, with length equal to capacity, as `os.Environ` returns it. When the append outgrows the array, the new array holds exactly the result; Go's larger growth capacity is not modelled.
- `log.Printf` in `processFile` and the messages' exact text (`%q`, `%v`) are output formatting. The errors carry the values the messages quote.
- `main`, `usage` and flag parsing (build.go:427-449) are command-line glue.
