/**
 * Stack frames and stack traces of package xerr: the text a frame and a trace
 * write for each formatting verb, and the capture of a trace from the
 * goroutine's call stack.
 */
module Stack {
  import opened Wrappers
  import opened Seqs
  import opened GoStd

  /** The fields of a runtime.Frame that the formatter reads. */
  datatype StackFrame = StackFrame(funcName: string, file: string, line: int)

  /** Frames from the innermost (newest) call outwards; the empty trace is Go's nil. */
  type StackTrace = seq<StackFrame>

  /**
   * The text StackFrame.Format writes for `verb`, `plus` being the '+' flag:
   * %s the base name of the file (with '+': function, "\n\r", full path),
   * %d the line, %n the function, %v the %s text, ":" and the %d text.
   */
  function FormatFrame(f: StackFrame, verb: char, plus: bool): (r: string)
    ensures verb == 'd' ==> ParseDecimal(r) == Some(f.line)
    ensures verb != 's' && verb != 'd' && verb != 'n' && verb != 'v' ==> r == []
    decreases if verb == 'v' then 1 else 0
  {
    match verb
    case 's' => if plus then f.funcName + "\n\r" + f.file else Base(f.file)
    case 'd' => ItoaRoundTrip(f.line); Itoa(f.line)
    case 'n' => f.funcName
    case 'v' => FormatFrame(f, 's', plus) + ":" + FormatFrame(f, 'd', plus)
    case _ => []
  }

  /** %n writes the function name and nothing else. */
  lemma FrameVerbN(f: StackFrame, plus: bool)
    ensures FormatFrame(f, 'n', plus) == f.funcName
  {
  }

  /** %s writes only the last element of the file path, e.g. "stack_test.go". */
  lemma FrameVerbS(f: StackFrame, dir: string, name: string)
    requires f.file == dir + "/" + name
    requires name != [] && '/' !in name
    ensures FormatFrame(f, 's', false) == name
  {
    BaseOfJoined(dir, name);
  }

  /** %s of a frame whose file has no directory part writes the file as it is. */
  lemma FrameVerbSBare(f: StackFrame)
    requires f.file != [] && '/' !in f.file
    ensures FormatFrame(f, 's', false) == f.file
  {
    BaseOfElement(f.file);
  }

  /** %+s writes the function, "\n\r" and the full path; %+v adds ":" and the line. */
  lemma FrameVerbPlus(f: StackFrame)
    ensures FormatFrame(f, 's', true) == f.funcName + "\n\r" + f.file
    ensures FormatFrame(f, 'v', true) == f.funcName + "\n\r" + f.file + ":" + Itoa(f.line)
  {
  }

  /**
   * %v (and %+v) is the %s (%+s) text and the %d text joined by the last ':'
   * of the output, so the line number can always be read back from it.
   */
  lemma FrameVerbV(f: StackFrame, plus: bool)
    ensures var r := FormatFrame(f, 'v', plus);
      var i := LastIndexOf(r, ':');
      && i == |FormatFrame(f, 's', plus)|
      && r[..i] == FormatFrame(f, 's', plus)
      && r[i + 1..] == FormatFrame(f, 'd', plus)
      && ParseDecimal(r[i + 1..]) == Some(f.line)
  {
    var s, d := FormatFrame(f, 's', plus), FormatFrame(f, 'd', plus);
    var r := FormatFrame(f, 'v', plus);
    assert r == s + [':'] + d;
    assert ':' !in d by {
      assert d == Itoa(f.line);
    }
    LastIndexOfSeparator(s, ':', d);
    assert r[|s| + 1..] == d;
    assert r[..|s|] == s;
  }

  /**
   * The frame's text for `verb` and `plus`, written into a State as the Go
   * method writes it: piece by piece, %v through the %s and %d cases.
   */
  method WriteFrame(f: StackFrame, s: State, verb: char)
    modifies s
    ensures s.written == old(s.written) + FormatFrame(f, verb, s.plus)
    decreases if verb == 'v' then 1 else 0
  {
    ghost var start := s.written;
    match verb
    case 's' =>
      if s.plus {
        s.WriteString(f.funcName);
        s.WriteString("\n\r");
        s.WriteString(f.file);
        AppendAssoc3(start, f.funcName, "\n\r", f.file);
      } else {
        s.WriteString(Base(f.file));
      }
    case 'd' => s.WriteString(Itoa(f.line));
    case 'n' => s.WriteString(f.funcName);
    case 'v' =>
      WriteFrame(f, s, 's');
      s.WriteString(":");
      WriteFrame(f, s, 'd');
      AppendAssoc3(start, FormatFrame(f, 's', s.plus), ":", FormatFrame(f, 'd', s.plus));
    case _ =>
      assert start + [] == start;
  }

  /** The fmt.State a formatter writes into: the text so far and the '+' flag. */
  class State {
    var written: string
    const plus: bool

    constructor (plus: bool)
      ensures written == [] && this.plus == plus
    {
      written := [];
      this.plus := plus;
    }

    method WriteString(text: string)
      modifies this
      ensures written == old(written) + text
    {
      written := written + text;
    }
  }

  /** Each frame's text, in trace order. */
  function FrameTexts(st: StackTrace, verb: char, plus: bool): seq<string>
  {
    seq(|st|, i requires 0 <= i < |st| => FormatFrame(st[i], verb, plus))
  }

  /** Every part followed by `sep`. */
  function Terminated(parts: seq<string>, sep: string): string
  {
    if parts == [] then [] else Terminated(parts[..|parts| - 1], sep) + parts[|parts| - 1] + sep
  }

  /** The parts with `sep` between consecutive ones and none at the end. */
  function Join(parts: seq<string>, sep: string): string
  {
    if parts == [] then [] else Terminated(parts[..|parts| - 1], sep) + parts[|parts| - 1]
  }

  /** The text StackTrace.Format writes: the frames' texts separated by "\n". */
  function TraceText(st: StackTrace, verb: char, plus: bool): string
  {
    Join(FrameTexts(st, verb, plus), "\n")
  }

  /** Splitting the joined lines at "\n" gives back exactly the lines. */
  lemma {:induction false} SplitJoin(parts: seq<string>)
    requires |parts| >= 1
    requires forall i :: 0 <= i < |parts| ==> '\n' !in parts[i]
    ensures Split(Join(parts, "\n"), '\n') == parts
  {
    var n := |parts|;
    if n == 1 {
      assert Join(parts, "\n") == parts[0];
      SplitNoSeparator(parts[0], '\n');
    } else {
      var init := parts[..n - 1];
      assert init[..n - 2] == parts[..n - 2];
      assert Terminated(init, "\n") == Join(init, "\n") + "\n";
      assert Join(parts, "\n") == Join(init, "\n") + ['\n'] + parts[n - 1];
      SplitAtSeparator(Join(init, "\n"), parts[n - 1], '\n');
      SplitJoin(init);
      SplitNoSeparator(parts[n - 1], '\n');
      assert init + [parts[n - 1]] == parts;
    }
  }

  /**
   * An empty trace writes nothing. A trace of k >= 1 frames whose texts hold
   * no newline writes k lines: split at "\n" it gives back each frame's text,
   * in order, so there are exactly k - 1 separators and none trailing.
   */
  lemma TraceLines(st: StackTrace, verb: char, plus: bool)
    requires forall i :: 0 <= i < |st| ==> '\n' !in FormatFrame(st[i], verb, plus)
    ensures st == [] ==> TraceText(st, verb, plus) == []
    ensures st != [] ==> Split(TraceText(st, verb, plus), '\n') == FrameTexts(st, verb, plus)
  {
    if st != [] {
      SplitJoin(FrameTexts(st, verb, plus));
    }
  }

  /** One more part extends the terminated text by that part and the separator. */
  lemma TerminatedStep(parts: seq<string>, k: nat, sep: string)
    requires k < |parts|
    ensures Terminated(parts[..k + 1], sep) == Terminated(parts[..k], sep) + parts[k] + sep
  {
    assert parts[..k + 1][..k] == parts[..k];
  }

  /** StackTrace.Format: every frame but the last followed by "\n", then the last. */
  method FormatTrace(st: StackTrace, s: State, verb: char)
    modifies s
    ensures s.written == old(s.written) + TraceText(st, verb, s.plus)
  {
    ghost var start := s.written;
    ghost var texts := FrameTexts(st, verb, s.plus);
    if |st| == 0 {
      assert texts == [];
      assert start + [] == start;
      return;
    }
    var f := 0;
    while f < |st| - 1
      invariant 0 <= f <= |st| - 1
      invariant s.written == start + Terminated(texts[..f], "\n")
    {
      ghost var before := s.written;
      WriteFrame(st[f], s, verb);
      s.WriteString("\n");
      assert s.written == before + texts[f] + "\n";
      TerminatedStep(texts, f, "\n");
      AppendAssoc3(start, Terminated(texts[..f], "\n"), texts[f], "\n");
      f := f + 1;
    }
    ghost var done := s.written;
    WriteFrame(st[|st| - 1], s, verb);
    assert s.written == done + texts[|st| - 1];
    JoinLast(texts, "\n");
    AppendAssoc(start, Terminated(texts[..|st| - 1], "\n"), texts[|st| - 1]);
  }

  /** The joined text is the terminated text of all parts but the last, then the last. */
  lemma JoinLast(parts: seq<string>, sep: string)
    requires parts != []
    ensures Join(parts, sep) == Terminated(parts[..|parts| - 1], sep) + parts[|parts| - 1]
  {
  }

  /** NewStackTrace's default maximum depth. */
  const DefaultDepth := 32

  /** The callers to skip: args[0] when present, else 0. */
  function SkipArg(args: seq<int>): int
  {
    if |args| > 0 then args[0] else 0
  }

  /** The maximum depth: args[1] when present, else DefaultDepth; later arguments are ignored. */
  function DepthArg(args: seq<int>): int
  {
    if |args| > 1 then args[1] else DefaultDepth
  }

  /** The argument handling: defaults and which positions are read. */
  lemma NewStackTraceArgs(args: seq<int>)
    ensures args == [] ==> SkipArg(args) == 0 && DepthArg(args) == 32
    ensures |args| == 1 ==> SkipArg(args) == args[0] && DepthArg(args) == 32
    ensures |args| >= 2 ==> SkipArg(args) == args[0] && DepthArg(args) == args[1]
    ensures |args| >= 2 ==> SkipArg(args[..2]) == SkipArg(args) && DepthArg(args[..2]) == DepthArg(args)
  {
  }

  /**
   * Where runtime.Callers(2 + skip, ...) starts recording in `stack`, whose
   * element 0 is runtime.Callers itself and element 1 is NewStackTrace; a
   * non-positive skip records from element 0.
   */
  function FirstRecorded(skip: int): nat
  {
    if 2 + skip <= 0 then 0 else 2 + skip
  }

  /**
   * The frames runtime.Callers records into a buffer of `depth` program
   * counters and runtime.CallersFrames yields back: at most `depth` frames
   * of `stack` from FirstRecorded(skip) on.
   */
  function Recorded(stack: seq<StackFrame>, skip: int, depth: nat): (r: seq<StackFrame>)
    ensures |r| <= depth
    ensures r == [] <==> depth == 0 || |stack| <= FirstRecorded(skip)
    ensures |r| == depth || FirstRecorded(skip) + |r| >= |stack|
    ensures forall k :: 0 <= k < |r| ==> FirstRecorded(skip) + k < |stack| && r[k] == stack[FirstRecorded(skip) + k]
  {
    var first := FirstRecorded(skip);
    if |stack| <= first then []
    else if |stack| - first <= depth then stack[first..]
    else stack[first..first + depth]
  }

  /** The trace NewStackTrace(args...) returns when the goroutine's stack is `stack`. */
  function Captured(args: seq<int>, stack: seq<StackFrame>): StackTrace
    requires DepthArg(args) >= 0
  {
    Recorded(stack, SkipArg(args), DepthArg(args))
  }

  /**
   * NewStackTrace: reads skip and depth from `args`, has the runtime record at
   * most `depth` frames, returns nil when none were recorded and otherwise
   * collects frames one by one, at most `depth` of them, stopping after the
   * last one.
   */
  method NewStackTrace(args: seq<int>, stack: seq<StackFrame>) returns (trace: StackTrace)
    requires DepthArg(args) >= 0
    ensures trace == Captured(args, stack)
  {
    var skip := 0;
    var depth := 32;
    if |args| > 0 {
      skip := args[0] + skip;
    }
    if |args| > 1 {
      depth := args[1];
    }
    var frames := Recorded(stack, skip, depth);
    if |frames| == 0 {
      return [];
    }
    trace := [];
    var i := 0;
    while i < depth
      invariant 0 <= i < |frames|
      invariant trace == frames[..i]
    {
      var f, more := frames[i], i + 1 < |frames|;
      trace := trace + [f];
      if !more {
        break;
      }
      i := i + 1;
    }
    assert trace == frames[..|frames|];
  }
}
