/** File-name extensions and the output paths the converters write to. */
module Paths {
  import opened Strings

  /** The directory the site is written to (`outputDir`). */
  const OutputDir: string := "output"

  /** `filepath.Join(dir, p)` for a clean relative `p`: the two joined by the separator. */
  function Join(dir: string, p: string): string {
    dir + "/" + p
  }

  /** Whether `e` has the shape of an extension: a dot, then neither a dot nor a separator. */
  predicate IsExt(e: string) {
    |e| > 0 && e[0] == '.' && '.' !in e[1..] && '/' !in e
  }

  /**
   * `filepath.Ext` with `/` as the only separator: the suffix of `path` that
   * starts at the last dot of its final element, or "" when that element has no dot.
   */
  function Ext(path: string): (r: string)
    ensures HasSuffix(path, r)
    ensures r != "" ==> IsExt(r)
    ensures r == "" ==> forall k :: 0 <= k < |path| && path[k] == '.' ==> '/' in path[k..]
  {
    ExtBefore(path, |path|)
  }

  /** The scan of `filepath.Ext`, from index `i` back to the start; `path[i..]` holds no dot or separator. */
  function ExtBefore(path: string, i: nat): (r: string)
    requires i <= |path|
    requires forall k :: i <= k < |path| ==> path[k] != '.' && path[k] != '/'
    ensures HasSuffix(path, r)
    ensures r != "" ==> IsExt(r)
    ensures r == "" ==> forall k :: 0 <= k < |path| && path[k] == '.' ==> '/' in path[k..]
    decreases i
  {
    if i == 0 then ""
    else if path[i - 1] == '/' then
      assert forall k :: 0 <= k < i - 1 ==> '/' in path[k..] by {
        forall k | 0 <= k < i - 1 ensures '/' in path[k..] { assert path[k..][i - 1 - k] == '/'; }
      }
      ""
    else if path[i - 1] == '.' then
      assert path[i - 1..][1..] == path[i..];
      path[i - 1..]
    else ExtBefore(path, i - 1)
  }

  /** The extension of a name ending in an extension-shaped `e` is `e`. */
  lemma ExtOfSuffix(stem: string, e: string)
    requires IsExt(e)
    ensures Ext(stem + e) == e
  {
    var p := stem + e;
    assert p[|stem|..] == e;
  }

  /**
   * `filepath.Join(outputDir, strings.TrimSuffix(path, from) + to)`: the
   * result always lies under `output/` and ends in the new extension.
   */
  function Target(path: string, from: string, to: string): (r: string)
    ensures HasPrefix(r, OutputDir + "/") && HasSuffix(r, to)
  {
    Join(OutputDir, TrimSuffix(path, from) + to)
  }

  /** Where a Markdown source is written: `p.md` goes to `output/p.html`. */
  function MarkdownTarget(path: string): (r: string)
    ensures HasSuffix(path, ".md") ==> r == "output/" + path[..|path| - 3] + ".html"
  {
    Target(path, ".md", ".html")
  }

  /** Where a Graphviz source is written: `p.dot` goes to `output/p.svg`. */
  function DotTarget(path: string): (r: string)
    ensures HasSuffix(path, ".dot") ==> r == "output/" + path[..|path| - 4] + ".svg"
  {
    Target(path, ".dot", ".svg")
  }

  /** A source `p` ending in `from` is written to `output/` + `p` without `from` + `to`. */
  lemma TargetOfSource(stem: string, from: string, to: string)
    ensures Target(stem + from, from, to) == "output/" + stem + to
  {
    var p := stem + from;
    assert p[|p| - |from|..] == from && p[..|p| - |from|] == stem;
  }

  /** A source without the suffix keeps its whole name: `a` would map to `output/a.html`. */
  lemma TargetWithoutSource(path: string, from: string, to: string)
    requires !HasSuffix(path, from)
    ensures Target(path, from, to) == "output/" + path + to
  {
  }

  /** Two sources ending in `from` never share an output path. */
  lemma TargetInjective(p: string, q: string, from: string, to: string)
    requires HasSuffix(p, from) && HasSuffix(q, from)
    requires Target(p, from, to) == Target(q, from, to)
    ensures p == q
  {
    var a, b := TrimSuffix(p, from), TrimSuffix(q, from);
    var t := Target(p, from, to);
    assert t == "output/" + a + to == "output/" + b + to;
    assert |a| == |b|;
    assert forall k :: 0 <= k < |a| ==> a[k] == t[7 + k] == b[k];
    assert a == b;
  }

  /** A Markdown output and a Graphviz output never coincide. */
  lemma TargetsDistinct(p: string, q: string)
    ensures MarkdownTarget(p) != DotTarget(q)
  {
    var m, d := MarkdownTarget(p), DotTarget(q);
    assert m[|m| - 1] == 'l' && d[|d| - 1] == 'g';
  }
}
