/** Reading the verdict of the PRISM model checker from the text it prints
    (the parsing half of `_call_prism`, agents/old/peucrl.py). Exactly one
    output line may carry "Result:"; it reads as true if it contains "true"
    (checked first), as false if it contains "false"; anything else is a
    tool failure, never a silent false. */
module PrismResult {

  datatype Result<T, E> = Ok(value: T) | Err(error: E)

  /** The ways the verification tool can fail. */
  datatype ToolFailure =
    | ProcessError             // the PRISM process exited with an error
    | NonBooleanResult         // a "Result:" line with neither "true" nor "false"
    | ResultCount(count: nat)  // a number of "Result:" lines other than 1

  /** Python's `pat in s` on strings. */
  predicate Contains(s: string, pat: string)
    decreases |s|
  {
    if |s| < |pat| then false
    else s[..|pat|] == pat || Contains(s[1..], pat)
  }

  /** The line boundaries of Python's str.splitlines. */
  predicate IsLineBreak(c: char)
  {
    c in {'\n', '\r', '\U{B}', '\U{C}', '\U{1C}', '\U{1D}', '\U{1E}', '\U{85}', '\U{2028}', '\U{2029}'}
  }

  /** The index of the first line break in s, or |s| when there is none. */
  function LineEnd(s: string): (k: nat)
    ensures k <= |s| && (k < |s| ==> IsLineBreak(s[k]))
    ensures forall j :: 0 <= j < k ==> !IsLineBreak(s[j])
  {
    if s == [] || IsLineBreak(s[0]) then 0 else 1 + LineEnd(s[1..])
  }

  /** Python's str.splitlines: the lines without their terminators; "\r\n"
      is one terminator, and a final terminator opens no further line. */
  function SplitLines(s: string): (lines: seq<string>)

    decreases |s|
  {
    if s == [] then []
    else
      var k := LineEnd(s);
      var next := if k + 1 < |s| && s[k] == '\r' && s[k + 1] == '\n' then k + 2
                  else if k < |s| then k + 1 else k;
      [s[..k]] + SplitLines(s[next..])
  }

  /** The lines that carry "Result:", in order. */
  function ResultLines(lines: seq<string>): (r: seq<string>)
  {
    if lines == [] then []
    else
      var last := lines[|lines| - 1];
      ResultLines(lines[..|lines| - 1]) + (if Contains(last, "Result:") then [last] else [])
  }

  /** The selected lines are lines of the output that carry "Result:", and
      every line that carries it is selected. */
  lemma {:induction false} ResultLinesSelect(lines: seq<string>)
    ensures |ResultLines(lines)| <= |lines|
    ensures forall k :: 0 <= k < |ResultLines(lines)| ==>
      Contains(ResultLines(lines)[k], "Result:") && ResultLines(lines)[k] in lines
    ensures forall line :: line in lines && Contains(line, "Result:") ==> line in ResultLines(lines)
  {
    if lines != [] {
      var init := lines[..|lines| - 1];
      ResultLinesSelect(init);
      assert lines == init + [lines[|lines| - 1]];
      var r := ResultLines(lines);
      var ri := ResultLines(init);
      assert forall k :: 0 <= k < |ri| ==> r[k] == ri[k];
    }
  }

  predicate IsBooleanLine(line: string)
  {
    Contains(line, "true") || Contains(line, "false")
  }

  predicate AllBoolean(lines: seq<string>)
  {
    forall k :: 0 <= k < |lines| ==> IsBooleanLine(lines[k])
  }

  /** What the parser decides for a given PRISM output. */
  function Verdict(output: string): Result<bool, ToolFailure>
  {
    var rl := ResultLines(SplitLines(output));
    if !AllBoolean(rl) then Err(NonBooleanResult)
    else if |rl| != 1 then Err(ResultCount(|rl|))
    else Ok(Contains(rl[0], "true"))
  }

  lemma {:induction false} ResultLinesAppend(a: seq<string>, b: seq<string>)
    ensures ResultLines(a + b) == ResultLines(a) + ResultLines(b)
    decreases |b|
  {
    if b != [] {
      var b' := b[..|b| - 1];
      assert (a + b)[..|a + b| - 1] == a + b';
      ResultLinesAppend(a, b');
    } else {
      assert a + b == a;
    }
  }

  lemma ResultLinesStep(lines: seq<string>, i: nat)
    requires i < |lines|
    ensures ResultLines(lines[..i + 1]) ==
      ResultLines(lines[..i]) + (if Contains(lines[i], "Result:") then [lines[i]] else [])
  {
    assert lines[..i + 1][..i] == lines[..i];
  }

  lemma AllBooleanAppend(seen: seq<string>, line: string)
    requires AllBoolean(seen)
    ensures AllBoolean(seen + [line]) <==> IsBooleanLine(line)
  {
    assert (seen + [line])[|seen|] == line;
  }

  /** A "Result:" line that is not boolean, after boolean ones, makes the
      verdict a failure whatever follows it. */
  lemma NonBooleanLineDecides(output: string, i: nat)
    requires i < |SplitLines(output)|
    requires AllBoolean(ResultLines(SplitLines(output)[..i]))
    requires Contains(SplitLines(output)[i], "Result:") && !IsBooleanLine(SplitLines(output)[i])
    ensures Verdict(output) == Err(NonBooleanResult)
  {
    var lines := SplitLines(output);
    ResultLinesStep(lines, i);
    ResultLinesAppend(lines[..i + 1], lines[i + 1..]);
    assert lines[..i + 1] + lines[i + 1..] == lines;
    var k := |ResultLines(lines[..i])|;
    assert ResultLines(lines)[k] == lines[i];
  }

  /** The loop of `_call_prism` with its `occurances` counter. */
  method ParsePrismOutput(output: string) returns (r: Result<bool, ToolFailure>)
    ensures r == Verdict(output)
  {
    var lines := SplitLines(output);
    var occurrences := 0;
    var verified := false;
    ghost var seen: seq<string> := [];
    for i := 0 to |lines|
      invariant seen == ResultLines(lines[..i])
      invariant occurrences == |seen| && AllBoolean(seen)
      invariant occurrences > 0 ==> verified == Contains(seen[occurrences - 1], "true")
    {
      var line := lines[i];
      ResultLinesStep(lines, i);
      if Contains(line, "Result:") {
        AllBooleanAppend(seen, line);
        seen := seen + [line];
        occurrences := occurrences + 1;
        if Contains(line, "true") {
          verified := true;
        } else if Contains(line, "false") {
          verified := false;
        } else {
          NonBooleanLineDecides(output, i);
          return Err(NonBooleanResult);
        }
      }
    }
    assert lines[..|lines|] == lines;
    if occurrences != 1 {
      return Err(ResultCount(occurrences));
    }
    return Ok(verified);
  }
}
