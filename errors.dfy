/**
 * The error decorator of package xerr: a StackTraceError keeps a root error
 * and the stack trace captured where it was made, reports the root's message,
 * and is found on an error's unwrap chain by GetStackTrace.
 */
module XErr {
  import opened Wrappers
  import Stack

  /**
   * Go error values as far as the decorator is concerned: a plain error with no
   * Unwrap method (errors.New), an error whose Unwrap returns `next`
   * (fmt.Errorf with one %w), and a *StackTraceError, which defines no Unwrap.
   */
  datatype Error =
    | Leaf(msg: string)
    | Wrapping(msg: string, next: Error)
    | StackTraceError(root: Error, stackTrace: Stack.StackTrace)
  {
    /**
     * The error a decorator stands for: the root of a StackTraceError, itself
     * decorated or not, followed until an error that is no decorator.
     */
    function Undecorated(): (u: Error)
      ensures !u.StackTraceError?
      ensures !StackTraceError? ==> u == this
    {
      match this
      case StackTraceError(r, _) => r.Undecorated()
      case _ => this
    }

    /**
     * Error(): a StackTraceError reports its root's message, so any stack of
     * decorators reports the message of the error they decorate.
     */
    function Message(): (m: string)
      ensures m == Undecorated().msg
    {
      match this
      case Leaf(m) => m
      case Wrapping(m, _) => m
      case StackTraceError(r, _) => r.Message()
    }

    /** (*StackTraceError).StackTrace: the trace the decorator holds. */
    function StackTrace(): (t: Stack.StackTrace)
      requires StackTraceError?
      ensures t == GetStackTrace(this)
    {
      stackTrace
    }
  }

  /** The errors errors.As visits: `e`, then what Unwrap returns, and so on. */
  function Chain(e: Error): (c: seq<Error>)
    ensures |c| >= 1 && c[0] == e
  {
    match e
    case Wrapping(_, n) => [e] + Chain(n)
    case _ => [e]
  }

  /** errors.As(e, &ste) with ste a *StackTraceError: the decorator it stops at, if any. */
  function AsStackTraceError(e: Error): (r: Option<Error>)
    ensures r.Some? ==> r.value.StackTraceError?
  {
    match e
    case StackTraceError(_, _) => Some(e)
    case Wrapping(_, n) => AsStackTraceError(n)
    case Leaf(_) => None
  }

  /**
   * errors.As finds the first StackTraceError on the unwrap chain, and finds
   * nothing exactly when the chain holds none.
   */
  lemma {:induction false} AsFindsFirst(e: Error)
    ensures AsStackTraceError(e).None? <==>
      forall k :: 0 <= k < |Chain(e)| ==> !Chain(e)[k].StackTraceError?
    ensures AsStackTraceError(e).Some? ==>
      exists k :: 0 <= k < |Chain(e)| && Chain(e)[k] == AsStackTraceError(e).value
        && Chain(e)[k].StackTraceError?
        && forall j :: 0 <= j < k ==> !Chain(e)[j].StackTraceError?
  {
    match e
    case Leaf(_) =>
    case StackTraceError(_, _) =>
      assert Chain(e)[0] == e;
    case Wrapping(_, n) =>
      AsFindsFirst(n);
      assert Chain(e) == [e] + Chain(n);
      assert forall k :: 0 < k < |Chain(e)| ==> Chain(e)[k] == Chain(n)[k - 1];
      if AsStackTraceError(n).Some? {
        var k :| 0 <= k < |Chain(n)| && Chain(n)[k] == AsStackTraceError(n).value
          && Chain(n)[k].StackTraceError?
          && forall j :: 0 <= j < k ==> !Chain(n)[j].StackTraceError?;
        assert Chain(e)[k + 1] == Chain(n)[k];
        assert forall j :: 0 <= j < k + 1 ==> !Chain(e)[j].StackTraceError? by {
          forall j | 0 <= j < k + 1 ensures !Chain(e)[j].StackTraceError? {
            if j > 0 {
              assert Chain(e)[j] == Chain(n)[j - 1];
            }
          }
        }
      } else {
        assert forall k :: 0 <= k < |Chain(e)| ==> !Chain(e)[k].StackTraceError? by {
          forall k | 0 <= k < |Chain(e)| ensures !Chain(e)[k].StackTraceError? {
            if k > 0 {
              assert Chain(e)[k] == Chain(n)[k - 1];
            }
          }
        }
      }
  }

  /** GetStackTrace: the trace of the StackTraceError errors.As finds, nil when there is none. */
  function GetStackTrace(err: Error): (t: Stack.StackTrace)
    ensures err.StackTraceError? ==> t == err.stackTrace
    ensures err.Leaf? ==> t == []
    ensures err.Wrapping? ==> t == GetStackTrace(err.next)
  {
    match AsStackTraceError(err)
    case Some(ste) => ste.stackTrace
    case None => []
  }

  /** On a chain whose first StackTraceError is at position k, GetStackTrace returns that one's trace. */
  lemma GetStackTraceFindsFirst(err: Error, k: nat)
    requires k < |Chain(err)| && Chain(err)[k].StackTraceError?
    requires forall j :: 0 <= j < k ==> !Chain(err)[j].StackTraceError?
    ensures GetStackTrace(err) == Chain(err)[k].stackTrace
  {
    AsFindsFirst(err);
    var k' :| 0 <= k' < |Chain(err)| && Chain(err)[k'] == AsStackTraceError(err).value
      && Chain(err)[k'].StackTraceError?
      && forall j :: 0 <= j < k' ==> !Chain(err)[j].StackTraceError?;
    assert k' == k;
  }

  /** With no StackTraceError on the unwrap chain, GetStackTrace returns nil. */
  lemma GetStackTraceNone(err: Error)
    requires forall k :: 0 <= k < |Chain(err)| ==> !Chain(err)[k].StackTraceError?
    ensures GetStackTrace(err) == []
  {
    AsFindsFirst(err);
  }

  /**
   * A StackTraceError has no Unwrap: the search stops at it, so its root is
   * never visited and a decorator nested as the root of another is not found.
   */
  lemma DecoratorIsOpaque(root: Error, trace: Stack.StackTrace)
    ensures Chain(StackTraceError(root, trace)) == [StackTraceError(root, trace)]
    ensures GetStackTrace(StackTraceError(root, trace)) == trace
  {
  }

  /**
   * StackTraceErr(msg): a new error with message `msg`, decorated with the
   * trace NewStackTrace(1) captures on `stack` (the goroutine's stack as
   * runtime.Callers sees it from inside NewStackTrace).
   */
  function StackTraceErr(msg: string, stack: seq<Stack.StackFrame>): (e: Error)
    ensures e.Message() == msg
    ensures GetStackTrace(e) == Stack.Captured([1], stack)
  {
    StackTraceError(Leaf(msg), Stack.Captured([1], stack))
  }

  /** AddStackTrace(err): `err` kept as the root, decorated with the trace NewStackTrace(1) captures. */
  function AddStackTrace(err: Error, stack: seq<Stack.StackFrame>): (e: Error)
    ensures e.Message() == err.Message()
    ensures GetStackTrace(e) == Stack.Captured([1], stack)
  {
    StackTraceError(err, Stack.Captured([1], stack))
  }

  /**
   * The trace of a decorator starts at the caller of StackTraceErr or
   * AddStackTrace (position 3 of `stack`, after runtime.Callers,
   * NewStackTrace and the constructor itself) and holds at most 32 frames.
   */
  lemma DecoratorTraceStartsAtCaller(err: Error, msg: string, stack: seq<Stack.StackFrame>)
    ensures |GetStackTrace(AddStackTrace(err, stack))| <= 32
    ensures GetStackTrace(StackTraceErr(msg, stack)) == GetStackTrace(AddStackTrace(err, stack))
    ensures |stack| > 3 ==> GetStackTrace(AddStackTrace(err, stack))[0] == stack[3]
    ensures |stack| <= 3 ==> GetStackTrace(AddStackTrace(err, stack)) == []
  {
    assert Stack.FirstRecorded(Stack.SkipArg([1])) == 3;
  }
}
