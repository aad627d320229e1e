/**
 * The result of one test method run in the debug VM, as BlueJ's JDI
 * debugger reports it: the test's class and method, the exception message
 * of a failure, and the failure's stack trace with the frames of JUnit's
 * own classes, of reflection and of BlueJ filtered out.
 */
module JdiTestResults {
  import opened Strings

  /** The frames filtered from a trace: a line holding one of these after its first character. */
  const Patterns: seq<string> := [
    "junit.framework.TestCase",
    "junit.framework.TestResult",
    "junit.framework.TestSuite",
    "junit.framework.Assert.",
    "junit.swingui.TestRunner",
    "junit.awtui.TestRunner",
    "junit.textui.TestRunner",
    "sun.reflect.",
    "bluej.",
    "java.lang.reflect.Method.invoke("
  ]

  // Filtering one line

  /** Pattern i's first occurrence in the line lies past its start. */
  predicate FoundLate(line: string, i: int)
  {
    0 <= i < |Patterns| && IndexOf(line, Patterns[i]) > 0
  }

  /** filterLine(line): does the line show a frame to filter? */
  function Filtered(line: string): (b: bool)
    ensures b ==> exists i :: 0 <= i < |Patterns| && Contains(line, Patterns[i]) && !OccursAt(line, Patterns[i], 0)
  {
    exists i | 0 <= i < |Patterns| :: FoundLate(line, i)
  }

  /** filterLine, the loop over the patterns. */
  method FilterLine(line: string) returns (r: bool)
    ensures r == Filtered(line)
  {
    var patterns := Patterns;
    for i := 0 to |patterns|
      invariant forall j :: 0 <= j < i ==> !FoundLate(line, j)
    {
      if IndexOf(line, patterns[i]) > 0 {
        assert FoundLate(line, i);
        return true;
      }
    }
    return false;
  }

  /**
   * A line is filtered exactly when one of the patterns occurs in it and
   * does not occur at its very start: since the first occurrence is what
   * counts, a line starting with a pattern is kept for that pattern even if
   * the pattern occurs again further on.
   */
  lemma FilteredExactly(line: string)
    ensures Filtered(line) <==>
              exists i, k :: 0 <= i < |Patterns| && OccursAt(line, Patterns[i], k) && !OccursAt(line, Patterns[i], 0)
  {
    if Filtered(line) {
      var i :| 0 <= i < |Patterns| && FoundLate(line, i);
      assert OccursAt(line, Patterns[i], IndexOf(line, Patterns[i]));
    }
    if exists i, k :: 0 <= i < |Patterns| && OccursAt(line, Patterns[i], k) && !OccursAt(line, Patterns[i], 0) {
      var i, k :| 0 <= i < |Patterns| && OccursAt(line, Patterns[i], k) && !OccursAt(line, Patterns[i], 0);
      assert Contains(line, Patterns[i]);
      assert FoundLate(line, i);
    }
  }

  // Splitting a trace into lines, as BufferedReader.readLine does

  predicate IsTerminator(c: char)
  {
    c == '\n' || c == '\r'
  }

  /** The index of the first line terminator at or after `from`, or |s|. */
  function LineEnd(s: string, from: nat): (k: nat)
    requires from <= |s|
    ensures from <= k <= |s| && (k < |s| ==> IsTerminator(s[k]))
    ensures forall j :: from <= j < k ==> !IsTerminator(s[j])
    decreases |s| - from
  {
    if from == |s| || IsTerminator(s[from]) then from else LineEnd(s, from + 1)
  }

  /**
   * readLine on a non-empty rest of the stream: the text up to the first
   * '\n', '\r' or "\r\n", and what follows that terminator.
   */
  function ReadLine(s: string): (r: (string, string))
    requires |s| > 0
    ensures |r.1| < |s|
  {
    var k := LineEnd(s, 0);
    if k == |s| then (s, [])
    else if s[k] == '\r' && k + 1 < |s| && s[k + 1] == '\n' then (s[..k], s[k + 2..])
    else (s[..k], s[k + 1..])
  }

  /** The lines readLine returns until it returns null. */
  function Lines(s: string): seq<string>
    decreases |s|
  {
    if |s| == 0 then [] else var (line, rest) := ReadLine(s); [line] + Lines(rest)
  }

  predicate NoTerminators(line: string)
  {
    forall j :: 0 <= j < |line| ==> !IsTerminator(line[j])
  }

  /** What the PrintWriter holds after println of each line with the line separator `nl`. */
  function Printed(lines: seq<string>, nl: string): string
  {
    if |lines| == 0 then [] else lines[0] + nl + Printed(lines[1..], nl)
  }

  /** The lines that are not filtered, in order. */
  function KeptLines(lines: seq<string>): seq<string>
  {
    if |lines| == 0 then []
    else (if Filtered(lines[0]) then [] else [lines[0]]) + KeptLines(lines[1..])
  }

  /** getFilteredTrace(stack), with `nl` the platform's line separator. */
  function FilteredTrace(stack: string, nl: string): (r: string)
    ensures |nl| > 0 ==> (r == [] <==> KeptLines(Lines(stack)) == [])
  {
    Printed(KeptLines(Lines(stack)), nl)
  }

  /** What the loop prints for one line read. */
  function Piece(line: string, nl: string): string
  {
    if Filtered(line) then [] else line + nl
  }

  /** What the loop still has to print for the unread rest of the trace. */
  function PrintedRest(rest: string, nl: string): string
    decreases |rest|
  {
    if |rest| == 0 then []
    else
      var (line, next) := ReadLine(rest);
      Piece(line, nl) + PrintedRest(next, nl)
  }

  lemma {:induction false} PrintedRestIsFiltered(rest: string, nl: string)
    ensures PrintedRest(rest, nl) == FilteredTrace(rest, nl)
    decreases |rest|
  {
    if |rest| > 0 {
      var (line, next) := ReadLine(rest);
      PrintedRestIsFiltered(next, nl);
      var ls := Lines(rest);
      assert ls == [line] + Lines(next);
      assert ls[0] == line && ls[1..] == Lines(next);
      var kept := KeptLines(Lines(next));
      if Filtered(line) {
        assert KeptLines(ls) == kept;
      } else {
        assert KeptLines(ls) == [line] + kept;
        assert ([line] + kept)[1..] == kept;
        assert Printed([line] + kept, nl) == line + nl + Printed(kept, nl);
      }
    }
  }

  lemma PrintedRestStep(rest: string, nl: string)
    requires |rest| > 0
    ensures var (line, next) := ReadLine(rest);
            PrintedRest(rest, nl) == Piece(line, nl) + PrintedRest(next, nl)
  {
  }

  /** One turn of getFilteredTrace's loop: println the line unless filterLine holds. */
  method PrintUnlessFiltered(line: string, nl: string) returns (piece: string)
    ensures piece == Piece(line, nl)
  {
    var filtered := FilterLine(line);
    piece := if filtered then "" else line + nl;
  }

  /** getFilteredTrace: read the trace line by line and print the lines that are not filtered. */
  method GetFilteredTrace(stack: string, nl: string) returns (r: string)
    ensures r == FilteredTrace(stack, nl)
  {
    var out := "";
    var rest := stack;
    while |rest| > 0
      invariant out + PrintedRest(rest, nl) == PrintedRest(stack, nl)
      decreases |rest|
    {
      var (line, next) := ReadLine(rest);
      PrintedRestStep(rest, nl);
      var piece := PrintUnlessFiltered(line, nl);
      out := out + piece;
      rest := next;
    }
    PrintedRestIsFiltered(stack, nl);
    r := out;
  }

  /** readLine never returns a line holding a terminator. */
  lemma {:induction false} LinesHaveNoTerminators(s: string)
    ensures forall i :: 0 <= i < |Lines(s)| ==> NoTerminators(Lines(s)[i])
    decreases |s|
  {
    if |s| > 0 {
      var (line, rest) := ReadLine(s);
      LinesHaveNoTerminators(rest);
      assert Lines(s) == [line] + Lines(rest);
    }
  }

  /** Every kept line is one of the lines and is not filtered. */
  lemma {:induction false} KeptLinesExactly(lines: seq<string>, line: string)
    ensures line in KeptLines(lines) <==> line in lines && !Filtered(line)
  {
    if |lines| > 0 {
      KeptLinesExactly(lines[1..], line);
      assert lines == [lines[0]] + lines[1..];
    }
  }

  lemma {:induction false} KeptLinesIdempotent(lines: seq<string>)
    ensures KeptLines(KeptLines(lines)) == KeptLines(lines)
  {
    if |lines| > 0 {
      KeptLinesIdempotent(lines[1..]);
      var rest := KeptLines(lines[1..]);
      if !Filtered(lines[0]) {
        var kept := KeptLines(lines);
        assert kept == [lines[0]] + rest;
        assert kept[0] == lines[0] && kept[1..] == rest;
      } else {
        assert KeptLines(lines) == rest;
      }
    }
  }

  /** A line separator: what readLine takes as the end of a line. */
  predicate IsLineSeparator(nl: string)
  {
    nl == "\n" || nl == "\r" || nl == "\r\n"
  }

  /** Reading back lines printed with a line separator gives the same lines. */
  lemma {:induction false} LinesOfPrinted(lines: seq<string>, nl: string)
    requires IsLineSeparator(nl)
    requires forall i :: 0 <= i < |lines| ==> NoTerminators(lines[i])
    ensures Lines(Printed(lines, nl)) == lines
  {
    if |lines| > 0 {
      var tail := Printed(lines[1..], nl);
      LinesOfPrinted(lines[1..], nl);
      if |lines| > 1 {
        assert tail == lines[1] + nl + Printed(lines[2..], nl);
        assert tail[0] == if |lines[1]| > 0 then lines[1][0] else nl[0];
      }
      ReadPrintedLine(lines[0], nl, tail);
      assert Lines(Printed(lines, nl)) == [lines[0]] + Lines(tail);
    }
  }

  /**
   * readLine gives back a line printed with a line separator, and the rest
   * after it, unless a lone '\r' separator is followed by '\n'.
   */
  lemma ReadPrintedLine(line: string, nl: string, tail: string)
    requires IsLineSeparator(nl) && NoTerminators(line)
    requires nl == "\r" && |tail| > 0 ==> tail[0] != '\n'
    ensures ReadLine(line + nl + tail) == (line, tail)
  {
    var s := line + nl + tail;
    assert s[..|line|] == line;
    assert s[|line|] == nl[0];
    LineEndPast(s, line);
    if nl == "\r\n" {
      assert s[|line| + 1] == '\n';
      assert s[|line| + 2..] == tail;
    } else {
      assert s[|line| + 1..] == tail;
    }
  }

  lemma LineEndPast(s: string, line: string)
    requires |line| < |s| && s[..|line|] == line && NoTerminators(line) && IsTerminator(s[|line|])
    ensures LineEnd(s, 0) == |line|
  {
    var k := LineEnd(s, 0);
    assert forall j :: 0 <= j < |line| ==> s[j] == line[j];
  }

  /** Filtering an already filtered trace removes no further lines. */
  lemma FilteredTraceIdempotent(stack: string, nl: string)
    requires IsLineSeparator(nl)
    ensures FilteredTrace(FilteredTrace(stack, nl), nl) == FilteredTrace(stack, nl)
  {
    var kept := KeptLines(Lines(stack));
    LinesHaveNoTerminators(stack);
    forall i | 0 <= i < |kept|
      ensures NoTerminators(kept[i])
    {
      KeptLinesExactly(Lines(stack), kept[i]);
    }
    LinesOfPrinted(kept, nl);
    KeptLinesIdempotent(Lines(stack));
  }

  // The test result

  datatype TestResult = TestResult(
    className: string,
    methodName: string,
    /** The failure's exception message; None when the test passed. */
    exceptionMsg: Option<string>,
    /** The filtered stack trace; None when there was none. */
    traceMsg: Option<string>)
  {
    /** getName: the class name, a dot, the method name. */
    function Name(): (n: string)
      ensures |n| == |className| + 1 + |methodName|
      ensures n[..|className|] == className && n[|className|] == '.' && n[|className| + 1..] == methodName
    {
      className + "." + methodName
    }

    function IsError(): (b: bool)
      ensures b <==> IsFailure()
    {
      exceptionMsg.Some?
    }

    function IsFailure(): (b: bool)
      ensures b <==> exceptionMsg.Some?
    {
      exceptionMsg.Some?
    }

    function IsSuccess(): (b: bool)
      ensures b <==> !IsError()
    {
      exceptionMsg.None?
    }
  }

  /** A method name holds no dot, so getName splits back at its last dot. */
  lemma NameSplitsAtLastDot(t: TestResult)
    requires '.' !in t.methodName
    ensures LastIndexOfChar(t.Name(), '.') == |t.className|
  {
    var n := t.Name();
    assert n[|t.className| + 1..] == t.methodName;
  }

  /**
   * JdiTestResult(className, methodName, exceptionMsg, traceMsg): None for
   * the NullPointerException a missing class or method name raises; the
   * trace is filtered when there is one.
   */
  function NewTestResult(className: Option<string>, methodName: Option<string>,
                         exceptionMsg: Option<string>, traceMsg: Option<string>, nl: string): (r: Option<TestResult>)
    ensures r.None? <==> className.None? || methodName.None?
    ensures r.Some? ==> r.value.className == className.value && r.value.methodName == methodName.value
    ensures r.Some? ==> r.value.exceptionMsg == exceptionMsg && (r.value.traceMsg.None? <==> traceMsg.None?)
  {
    if className.None? || methodName.None? then None
    else
      var trace := if traceMsg.Some? then Some(FilteredTrace(traceMsg.value, nl)) else None;
      Some(TestResult(className.value, methodName.value, exceptionMsg, trace))
  }

  /** JdiTestResult(className, methodName): a passed test without a trace. */
  function NewPassedResult(className: Option<string>, methodName: Option<string>, nl: string): (r: Option<TestResult>)
    ensures r.Some? ==> r.value.IsSuccess() && r.value.traceMsg.None?
    ensures r.None? <==> className.None? || methodName.None?
  {
    NewTestResult(className, methodName, None, None, nl)
  }

  /** A stored trace shows no filtered frame. */
  lemma StoredTraceIsClean(className: Option<string>, methodName: Option<string>,
                           exceptionMsg: Option<string>, traceMsg: Option<string>, nl: string, line: string)
    requires IsLineSeparator(nl)
    requires var r := NewTestResult(className, methodName, exceptionMsg, traceMsg, nl);
             r.Some? && r.value.traceMsg.Some? && line in Lines(r.value.traceMsg.value)
    ensures !Filtered(line)
  {
    var stack := traceMsg.value;
    var kept := KeptLines(Lines(stack));
    LinesHaveNoTerminators(stack);
    forall i | 0 <= i < |kept|
      ensures NoTerminators(kept[i])
    {
      KeptLinesExactly(Lines(stack), kept[i]);
    }
    LinesOfPrinted(kept, nl);
    KeptLinesExactly(Lines(stack), line);
  }
}
