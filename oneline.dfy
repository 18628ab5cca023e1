/** Parsing the one-line output of a git plumbing command (`git describe`, `git write-tree`, `git commit-tree`). */
module GitOutput {
  import opened Bytes
  import opened Errors

  /** `oneLine`: accepts exactly one newline-terminated line and returns it without the newline. */
  function OneLine(b: Bytes): (r: Result<Bytes>)
    ensures r.Ok? <==> |b| > 0 && b[|b| - 1] == NL && NL !in b[..|b| - 1]
    ensures r.Ok? ==> r.value + [NL] == b && NL !in r.value
    ensures r == Err(MustNotBeEmpty) <==> |b| == 0
    ensures r == Err(MustEndInNewline(b)) <==> |b| > 0 && b[|b| - 1] != NL
    ensures r.Err? && r.error.MustBeSingleLine? <==> |b| > 0 && b[|b| - 1] == NL && NL in b[..|b| - 1]
    ensures r.Err? && r.error.MustBeSingleLine? ==> r.error.output == b[..|b| - 1]
  {
    if |b| == 0 then Err(MustNotBeEmpty)
    else if b[|b| - 1] != NL then Err(MustEndInNewline(b))
    else
      var line := b[..|b| - 1];
      if IndexByte(line, NL) >= 0 then Err(MustBeSingleLine(line))
      else Ok(line)
  }

  /** A successful parse is exactly the inverse of terminating a newline-free line. */
  lemma OneLineIff(b: Bytes, line: Bytes)
    ensures OneLine(b) == Ok(line) <==> NL !in line && b == line + [NL]
  {
    if NL !in line && b == line + [NL] {
      assert b[..|b| - 1] == line;
    }
  }

  /** Round trip: terminating a newline-free line and parsing it gives the line back. */
  lemma OneLineRoundTrip(line: Bytes)
    requires NL !in line
    ensures OneLine(line + [NL]) == Ok(line)
  {
    OneLineIff(line + [NL], line);
  }

  /** A summary of `OneLine`'s own ensures: every failure is one of its three errors. */
  lemma OneLineErrors(b: Bytes)
    ensures OneLine(b).Err? ==> OneLine(b).error in {MustNotBeEmpty, MustEndInNewline(b), MustBeSingleLine(if |b| == 0 then [] else b[..|b| - 1])}
  {
  }

  /** The examples `"abc\n"`, `""`, `"abc"` and `"abc\ndef\n"`. */
  lemma OneLineExamples()
    ensures OneLine([97, 98, 99, NL]) == Ok([97, 98, 99])
    ensures OneLine([]) == Err(MustNotBeEmpty)
    ensures OneLine([97, 98, 99]) == Err(MustEndInNewline([97, 98, 99]))
    ensures OneLine([97, 98, 99, NL, 100, 101, 102, NL]) == Err(MustBeSingleLine([97, 98, 99, NL, 100, 101, 102]))
  {
    var abc: Bytes := [97, 98, 99];
    assert abc + [NL] == [97, 98, 99, NL];
    OneLineRoundTrip(abc);
    var two: Bytes := [97, 98, 99, NL, 100, 101, 102, NL];
    assert two[..|two| - 1][3] == NL;
  }
}
