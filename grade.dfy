/** Scoring of a test-runner log.
    Every line is echoed unchanged. A line that starts with
    `test <name> ... ok` or `test <name> ... FAILED` (the regular expression
    `^test (.*?) \.\.\. (ok|FAILED)`) and names a test of the fixed score
    table records that test's points, or 0 when it failed; a later line for
    the same test overwrites an earlier one. After the last line one
    summary of the recorded scores is written. */
module Grade {

  datatype Option<T> = None | Some(value: T)

  datatype Outcome = Ok | Failed

  /** What a matching line captures: the test name and its result token. */
  datatype TestLine = TestLine(name: string, outcome: Outcome)

  /** A line of output: an echoed input line, or the final summary. */
  datatype OutputLine = Echo(line: string) | Summary(scores: map<string, real>)

  /** The points each known test is worth. */
  const Scores: map<string, real> := map[
    "uart_trivial_48000" := 0.5,
    "uart_trivial_44100" := 0.5,
    "uart_unsync_44100" := 0.5,
    "uart_unsync_48000" := 0.5,
    "uart_noisy_48000" := 0.5,
    "uart_noisy_44100" := 0.5,
    "uart_noisy_unsync_48000" := 0.5,
    "uart_noisy_unsync_44100" := 0.5,
    "v21_sync_48000" := 1.0,
    "v21_sync_44100" := 1.0,
    "v21_unsync_48000" := 1.0,
    "v21_unsync_44100" := 1.0
  ]

  const Prefix: string := "test "
  const Separator: string := " ... "

  function Token(r: Outcome): string {
    match r
    case Ok => "ok"
    case Failed => "FAILED"
  }

  /** The regular-expression wildcard `.` matches any character but a newline. */
  predicate NoNewline(s: string) {
    forall i :: 0 <= i < |s| ==> s[i] != '\n'
  }

  /** `line` begins with `test <name> ... <token>`, whatever follows. */
  predicate MatchesAs(line: string, name: string, r: Outcome) {
    NoNewline(name) && Prefix + name + Separator + Token(r) <= line
  }

  // ---------------------------------------------------------------------
  // The matcher

  /** The result token that follows a separator at position `i`, if any;
      `ok` is tried before `FAILED`. */
  function TokenAt(line: string, i: nat): (r: Option<Outcome>)
    requires i <= |line|
    ensures r.Some? ==> Separator + Token(r.value) <= line[i..]
    ensures r.None? ==> forall o :: !(Separator + Token(o) <= line[i..])
  {
    if Separator + "ok" <= line[i..] then Some(Ok)
    else if Separator + "FAILED" <= line[i..] then Some(Failed)
    else None
  }

  /** The non-greedy name capture: the name runs from position 5 to `i`;
      when no token follows, the name takes one more character, which may
      not be a newline. */
  function Search(line: string, i: nat): (r: Option<TestLine>)
    requires 5 <= i <= |line|
    ensures r.Some? ==> i <= 5 + |r.value.name| <= |line| && r.value.name == line[5..5 + |r.value.name|]
    decreases |line| - i
  {
    match TokenAt(line, i)
    case Some(r) => Some(TestLine(line[5..i], r))
    case None =>
      if i < |line| && line[i] != '\n' then Search(line, i + 1) else None
  }

  /** `re.match(r'^test (.*?) \.\.\. (ok|FAILED)', line)`: a match it
      answers has the pattern's form, and it answers none only when no
      name and token give that form. */
  function Match(line: string): (r: Option<TestLine>)
    ensures r.Some? ==> MatchesAs(line, r.value.name, r.value.outcome)
    ensures r.None? ==> forall n, o :: !MatchesAs(line, n, o)
  {
    if Prefix <= line then
      assert line[5..5] == [];
      SearchSound(line, 5);
      SearchFinds(line);
      Search(line, 5)
    else
      NoPrefixNoMatch(line);
      None
  }

  lemma SearchFinds(line: string)
    requires Prefix <= line
    ensures Search(line, 5).None? ==> forall n, o :: !MatchesAs(line, n, o)
  {
    forall n, o | MatchesAs(line, n, o) ensures Search(line, 5).Some? {
      SearchComplete(line, 5, n, o);
    }
  }

  lemma NoPrefixNoMatch(line: string)
    requires !(Prefix <= line)
    ensures forall n, o :: !MatchesAs(line, n, o)
  {
  }

  lemma Decompose(line: string, name: string, r: Outcome)
    requires Prefix <= line && 5 + |name| <= |line| && line[5..5 + |name|] == name
    ensures MatchesAs(line, name, r) <==>
      NoNewline(name) && Separator + Token(r) <= line[5 + |name|..]
  {
    var k := 5 + |name|;
    var tail := Separator + Token(r);
    assert line[..5] == Prefix;
    if k + |tail| <= |line| {
      assert line[..k + |tail|] == line[..5] + line[5..k] + line[k..][..|tail|];
    }
  }

  lemma {:induction false} SearchSound(line: string, i: nat)
    requires Prefix <= line && 5 <= i <= |line| && NoNewline(line[5..i])
    ensures Search(line, i).Some? ==>
      var t := Search(line, i).value;
      MatchesAs(line, t.name, t.outcome) && i <= 5 + |t.name|
    decreases |line| - i
  {
    match TokenAt(line, i)
    case Some(r) =>
      Decompose(line, line[5..i], r);
    case None =>
      if i < |line| && line[i] != '\n' {
        assert line[5..i + 1] == line[5..i] + [line[i]];
        SearchSound(line, i + 1);
      }
  }

  lemma {:induction false} SearchComplete(line: string, i: nat, name: string, r: Outcome)
    requires Prefix <= line && 5 <= i <= 5 + |name|
    requires MatchesAs(line, name, r)
    ensures Search(line, i).Some? && |Search(line, i).value.name| <= |name|
    decreases |line| - i
  {
    var k := 5 + |name|;
    assert (Prefix + name + Separator + Token(r))[5..k] == name;
    Decompose(line, name, r);
    match TokenAt(line, i)
    case Some(_) =>
    case None =>
      assert i != k;
      assert line[i] == name[i - 5];
      SearchComplete(line, i + 1, name, r);
  }

  /** Two matches with names of one length are the same match. */
  lemma MatchesAsUnique(line: string, n1: string, r1: Outcome, n2: string, r2: Outcome)
    requires MatchesAs(line, n1, r1) && MatchesAs(line, n2, r2) && |n1| == |n2|
    ensures n1 == n2 && r1 == r2
  {
    var k := 5 + |n1|;
    assert (Prefix + n1 + Separator + Token(r1))[5..k] == n1;
    assert (Prefix + n2 + Separator + Token(r2))[5..k] == n2;
    assert (Prefix + n1 + Separator + Token(r1))[k + 5] == Token(r1)[0];
    assert (Prefix + n2 + Separator + Token(r2))[k + 5] == Token(r2)[0];
  }

  /** The matcher is the anchored, non-greedy regular expression: it
      answers exactly the match with the shortest name. */
  lemma MatchIsShortest(line: string, name: string, r: Outcome)
    ensures Match(line) == Some(TestLine(name, r)) <==>
      MatchesAs(line, name, r) &&
      forall n2, r2 :: MatchesAs(line, n2, r2) ==> |name| <= |n2|
  {
    if Match(line) == Some(TestLine(name, r)) {
      assert line[5..5] == [];
      SearchSound(line, 5);
      forall n2, r2 | MatchesAs(line, n2, r2) ensures |name| <= |n2| {
        SearchComplete(line, 5, n2, r2);
      }
    }
    if MatchesAs(line, name, r) && forall n2, r2 :: MatchesAs(line, n2, r2) ==> |name| <= |n2| {
      assert Prefix <= line;
      SearchComplete(line, 5, name, r);
      var t := Match(line).value;
      assert line[5..5] == [];
      SearchSound(line, 5);
      MatchesAsUnique(line, name, r, t.name, t.outcome);
    }
  }

  /** A name without spaces is captured whole: the separator cannot start
      inside it. */
  lemma MatchPlain(line: string, name: string, r: Outcome, rest: string)
    requires forall i :: 0 <= i < |name| ==> name[i] != ' ' && name[i] != '\n'
    requires line == Prefix + name + Separator + Token(r) + rest
    ensures Match(line) == Some(TestLine(name, r))
  {
    assert MatchesAs(line, name, r);
    forall n2, r2 | MatchesAs(line, n2, r2) ensures |name| <= |n2| {
      assert line[5 + |n2|] == ' ';
    }
    MatchIsShortest(line, name, r);
  }

  /** A line matches exactly when it has the form the pattern describes. */
  lemma MatchSomeIff(line: string)
    ensures Match(line).Some? <==> exists n, r :: MatchesAs(line, n, r)
  {
    if Match(line).Some? {
      var t := Match(line).value;
      MatchIsShortest(line, t.name, t.outcome);
    }
    if exists n, r :: MatchesAs(line, n, r) {
      var n, r :| MatchesAs(line, n, r);
      SearchComplete(line, 5, n, r);
    }
  }

  // ---------------------------------------------------------------------
  // The results map

  /** What a recorded test scores: its points when it passed, 0 when it failed. */
  function Award(name: string, o: Outcome): (r: real)
    requires name in Scores
    ensures 0.0 <= r <= Scores[name]
    ensures r == Scores[name] <==> o == Ok
  {
    if o == Ok then Scores[name] else 0.0
  }

  /** The effect of one line on the results: a well-formed map stays well
      formed, and no entry but the one the line names changes or appears. */
  function Record(results: map<string, real>, line: string): (r: map<string, real>)
    ensures WellFormed(results) ==> WellFormed(r)
    ensures forall n :: n in results && !Names(line, n) ==> n in r && r[n] == results[n]
    ensures forall n :: n in r && !Names(line, n) ==> n in results
  {
    match Match(line)
    case Some(t) =>
      if t.name in Scores then results[t.name := Award(t.name, t.outcome)] else results
    case None => results
  }

  /** The results after reading `lines`. */
  function Results(lines: seq<string>): (r: map<string, real>)
    ensures WellFormed(r)
  {
    if lines == [] then map[]
    else Record(Results(lines[..|lines| - 1]), lines[|lines| - 1])
  }

  /** Only known tests are recorded, each with at least 0 and at most its points. */
  ghost predicate WellFormed(results: map<string, real>) {
    forall n :: n in results ==> n in Scores && 0.0 <= results[n] <= Scores[n]
  }

  /** `line` produced a match naming `name`. */
  predicate Names(line: string, name: string) {
    Match(line).Some? && Match(line).value.name == name
  }

  /** The last line that names a known test decides its score. */
  lemma {:induction false} ResultsLastWins(lines: seq<string>, name: string, i: nat)
    requires i < |lines| && Names(lines[i], name) && name in Scores
    requires forall j :: i < j < |lines| ==> !Names(lines[j], name)
    ensures name in Results(lines)
    ensures Results(lines)[name] == Award(name, Match(lines[i]).value.outcome)
  {
    var init := lines[..|lines| - 1];
    if i < |lines| - 1 {
      assert forall j :: i < j < |init| ==> init[j] == lines[j];
      ResultsLastWins(init, name, i);
    }
  }

  /** A test no line names is not recorded. */
  lemma {:induction false} ResultsUnnamed(lines: seq<string>, name: string)
    requires forall j :: 0 <= j < |lines| ==> !Names(lines[j], name)
    ensures name !in Results(lines)
  {
    if lines != [] {
      var init := lines[..|lines| - 1];
      assert forall j :: 0 <= j < |init| ==> init[j] == lines[j];
      ResultsUnnamed(init, name);
    }
  }

  /** A line that does not match, or names an unknown test, may be dropped
      from anywhere in the log without changing the results. */
  lemma {:induction false} ResultsIgnore(a: seq<string>, line: string, b: seq<string>)
    requires Match(line).None? || Match(line).value.name !in Scores
    ensures Results(a + [line] + b) == Results(a + b)
  {
    if b == [] {
      assert a + [line] + b == a + [line];
      assert (a + [line])[..|a|] == a;
      assert a + b == a;
    } else {
      var b0 := b[..|b| - 1];
      ResultsIgnore(a, line, b0);
      assert (a + [line] + b)[..|a + [line] + b| - 1] == a + [line] + b0;
      assert (a + b)[..|a + b| - 1] == a + b0;
    }
  }

  /** No input, no scores. */
  lemma ResultsEmpty()
    ensures Results([]) == map[]
  {
  }

  const PassLine: string := "test v21_sync_48000 ... ok\n"
  const FailLine: string := "test uart_trivial_48000 ... FAILED\n"
  const OtherLine: string := "random text\n"

  lemma MatchPassLine()
    ensures Match(PassLine) == Some(TestLine("v21_sync_48000", Ok))
  {
    MatchPlain(PassLine, "v21_sync_48000", Ok, "\n");
  }

  lemma MatchFailLine()
    ensures Match(FailLine) == Some(TestLine("uart_trivial_48000", Failed))
  {
    MatchPlain(FailLine, "uart_trivial_48000", Failed, "\n");
  }

  lemma MatchOtherLine()
    ensures Match(OtherLine) == None
  {
    assert OtherLine[0] != Prefix[0];
  }

  /** The results of three lines, from what each line matches. */
  lemma ResultsOfThree(l1: string, l2: string, l3: string)
    requires Match(l1) == Some(TestLine("v21_sync_48000", Ok))
    requires Match(l2) == Some(TestLine("uart_trivial_48000", Failed))
    requires Match(l3) == None
    ensures Results([l1, l2, l3]) == map["v21_sync_48000" := 1.0, "uart_trivial_48000" := 0.0]
  {
    assert "v21_sync_48000" in Scores && Scores["v21_sync_48000"] == 1.0;
    assert "uart_trivial_48000" in Scores;
    assert [l1][..0] == [];
    assert Results([l1]) == map["v21_sync_48000" := 1.0];
    assert [l1, l2][..1] == [l1];
    assert Results([l1, l2]) == map["v21_sync_48000" := 1.0, "uart_trivial_48000" := 0.0];
    assert [l1, l2, l3][..2] == [l1, l2];
  }

  /** A passed test, a failed test and a line of other output. */
  lemma ResultsExample()
    ensures Results([PassLine, FailLine, OtherLine])
      == map["v21_sync_48000" := 1.0, "uart_trivial_48000" := 0.0]
  {
    MatchPassLine();
    MatchFailLine();
    MatchOtherLine();
    ResultsOfThree(PassLine, FailLine, OtherLine);
  }

  // ---------------------------------------------------------------------
  // The script

  /** Reads `lines`, echoes each, and ends with the summary of the results. */
  method Run(lines: seq<string>) returns (out: seq<OutputLine>)
    ensures |out| == |lines| + 1
    ensures forall k :: 0 <= k < |lines| ==> out[k] == Echo(lines[k])
    ensures out[|lines|] == Summary(Results(lines))
  {
    var results: map<string, real> := map[];
    out := [];
    for i := 0 to |lines|
      invariant |out| == i
      invariant forall k :: 0 <= k < i ==> out[k] == Echo(lines[k])
      invariant results == Results(lines[..i])
    {
      out := out + [Echo(lines[i])];
      ghost var before := results;
      var m := Match(lines[i]);
      if m.Some? {
        var name := m.value.name;
        if name in Scores {
          results := results[name := if m.value.outcome == Ok then Scores[name] else 0.0];
        }
      }
      assert results == Record(before, lines[i]);
      assert lines[..i + 1][..i] == lines[..i];
    }
    assert lines[..|lines|] == lines;
    out := out + [Summary(results)];
  }
}
