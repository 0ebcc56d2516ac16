# gu core, modelled in Dafny

This project models four pieces of sequential logic from the Go module
`github.com/kintar/gu` and proves properties about them:

- **`ddbutil.QueryAsync`** (module `DdbUtil`, `query.dfy`). This is the worker
  goroutine that pages through a DynamoDB query.
  - Each iteration first checks the context. Then it calls `client.Query` with
    the current `ExclusiveStartKey` and unmarshals the page's raw items one by
    one, stopping at the first failure.
  - It publishes one `QueryResult` per iteration and moves the cursor to the
    page's `LastEvaluatedKey`.
  - It stops on cancellation, on a client error, on an unmarshal error, or
    when the key is empty. The deferred `close` runs on every exit.
  - The worker's observable behaviour is a sequence of events: `Query(cursor)`,
    `Unmarshal(item)`, `Publish(result)` and `Close`. The channel is the
    ordered `Publish` events.
  - The client, the unmarshaler and the context are inputs:
    - `responses[i]` is what the i-th `Query` call returns;
    - `unmarshal` converts one raw item;
    - `canceled(i)` says whether `ctx.Done()` is ready at the top of iteration i.
  - `QueryAsync` and its loop body `Iteration` are methods. Each is proved
    against the specification function `Run`/`Worker`, and the lemmas state
    what `Run` publishes, queries and closes.
- **Stack frames and traces** (module `Stack`, `stack.dfy`).
  - `StackFrame.Format` is the function `FormatFrame` of (frame, verb, '+'
    flag). The method `WriteFrame` writes it piece by piece into a `State`
    class, which stands in for `fmt.State`.
  - `StackTrace.Format` is the loop method `FormatTrace`.
  - `NewStackTrace` is a loop method over the goroutine's call stack, which is
    given as a sequence of frames.
- **The error decorator** (module `XErr`, `errors.dfy`). `StackTraceError`,
  `Error()`, `StackTrace()`, `GetStackTrace` (errors.As over the unwrap
  chain), `StackTraceErr` and `AddStackTrace`.
- **Version normalisation of the `makeversion` generator** (module
  `MakeVersion`, `makeversion.dfy`). It rejects empty `git describe` output,
  strips `\r` and `\n`, and appends `-dev` unless the text starts with `v`.

Two more modules hold helpers:
- `GoStd` (`gostd.dfy`) has the Go library functions the core calls:
  `strconv.Itoa`, `path.Base`, and `strings.ReplaceAll` with a one-character
  pattern and an empty replacement. It also has `strings.Split` with a
  one-character separator. No core file calls it; the package's tests use it
  to read a formatted trace back into lines (xerr/stack_test.go:24), and the
  model uses it for the `Stack.SplitJoin` round trip.
- `Seqs` (`seqs.dfy`) has small sequence facts.

`Wrappers` (`wrappers.dfy`) defines `Option` and `Result`.

The doc comment of `StackTrace.Format` (xerr/stack.go:93-94) says a newline
follows each frame. The code writes a newline only between frames, and the
model follows the code. Likewise, the doc comment of `StackFrame.Format`
(xerr/stack.go:25-26) says `%+s` puts the file path indented on a second
line. The code writes `"\n\r"` between the function name and the path
(xerr/stack.go:33), with no indentation, and the model writes what the code
writes.

## Model

| member | source | states |
|---|---|---|
| DdbUtil.QueryAsync | aws/ddbutil/generic.go:33-68 | The worker's events are exactly `Worker`: the run of iterations from the start key, then one `Close`. |
| DdbUtil.Iteration | aws/ddbutil/generic.go:39-65 | One loop pass appends to the events so far exactly the iteration's calls and published result. It reports returning from the goroutine exactly when the iteration ends the run (canceled, client failure, unmarshal failure or empty key). Otherwise the next cursor is the page's `LastEvaluatedKey`. |
| DdbUtil.UnmarshalPage | aws/ddbutil/generic.go:49-58 | The item loop returns exactly `ConvertPage`'s items and failure, and makes exactly `PageCalls`' unmarshal calls. |
| DdbUtil.QueryError.Message | aws/ddbutil/generic.go:17-53 | A bare sentinel's text is exactly its `errors.New` message (lines 17-19). A wrapped error's text is that message, then ": " and the cause. |
| DdbUtil.ConvertPage | aws/ddbutil/generic.go:49-58 | A page converts completely when no item fails; when one fails, fewer items than the page holds are kept. Which items they are is stated by `DdbUtil.ConvertPageSpec`. |
| DdbUtil.ConvertPageSpec | aws/ddbutil/generic.go:50-57 | Each converted item is the unmarshaling of the raw item at the same position, in order. A failure is the error of the raw item right after the converted ones. |
| DdbUtil.ConvertAllOk | aws/ddbutil/generic.go:50-58 | A page whose raw items all unmarshal converts without failure. |
| DdbUtil.ConvertFirstFailure | aws/ddbutil/generic.go:50-56 | If item j is the first to fail, exactly j items are converted and the failure is item j's error. |
| DdbUtil.PageCallsSpec | aws/ddbutil/generic.go:50-56 | Converting a page calls the unmarshaler on exactly the converted items and the failing one, in order. |
| DdbUtil.LastIteration | aws/ddbutil/generic.go:38-66 | The run's last iteration exists within the finite response source and ends the run. |
| DdbUtil.LastIterationIsFirst | aws/ddbutil/generic.go:38-66 | No earlier iteration ends the run. |
| DdbUtil.IterationCallsProjections | aws/ddbutil/generic.go:39-56 | An iteration's calls publish nothing and never close. They query once with the current cursor, or not at all when cancellation is seen. |
| DdbUtil.IterationProjections | aws/ddbutil/generic.go:39-59 | An iteration publishes exactly one result. It queries with the current cursor unless canceled, and does not close. |
| DdbUtil.RunPublished | aws/ddbutil/generic.go:38-66 | The results a run publishes are one per iteration, in order, up to and including the last iteration. |
| DdbUtil.RunQueried | aws/ddbutil/generic.go:44-60 | The cursors sent to `client.Query` are, in order, the start key and then each page's `LastEvaluatedKey`, skipping a canceled iteration. |
| DdbUtil.ResultsShape | aws/ddbutil/generic.go:38-66 | There is one result per iteration up to the last. All but the last carry no error, and the last is the last iteration's result. |
| DdbUtil.RunCloses | aws/ddbutil/generic.go:38-66 | The loop itself never closes the channel. |
| DdbUtil.RunLast | aws/ddbutil/generic.go:38-66 | The loop's final event publishes the last iteration's result. |
| DdbUtil.RunLastStep | aws/ddbutil/generic.go:59-65 | An iteration that does not return leaves the final event to the following iterations. |
| DdbUtil.ClosedOnceAtEnd | aws/ddbutil/generic.go:33-68 | On every exit path the channel is closed exactly once. The close is the very last event, right after a publication, and no close occurs before it. |
| DdbUtil.WorkerProjections | aws/ddbutil/generic.go:33-68 | The whole worker publishes and queries exactly what its loop does. |
| DdbUtil.ErrorOnlyLast | aws/ddbutil/generic.go:40-64 | At least one result is published. Only the last result can carry an error. It carries none iff the last page converted fully, and then that page's key is empty. Its sentinel is ContextCanceled iff canceled, DdbClientError iff the client failed, and CannotUnmarshal iff an item failed. |
| DdbUtil.CancelObserved | aws/ddbutil/generic.go:39-42 | When cancellation is seen, the only event is one item-less result with `ErrQueryContextCanceled`. No Query call is made. |
| DdbUtil.ClientFailureAt | aws/ddbutil/generic.go:44-47 | A client failure gives one Query call, then an item-less result wrapping `ErrQueryDdbClientError` with the cause. Nothing follows. |
| DdbUtil.UnmarshalFailureAt | aws/ddbutil/generic.go:49-55 | When item j is the first to fail, items 0..j are unmarshaled. The published result holds the conversions of items 0..j-1 in order, with an error wrapping `ErrQueryCannotUnmarshal` and the cause. Then the worker stops. |
| DdbUtil.FullPage | aws/ddbutil/generic.go:49-64 | A fully converted page unmarshals every item. It publishes an error-free result whose items match the raw items one for one, in order. It then continues with the page's `LastEvaluatedKey`, or stops exactly when that key is empty. |
| DdbUtil.ConvertAppend | aws/ddbutil/generic.go:50-57 | Converting two pages in turn is converting their concatenation. |
| DdbUtil.ExhaustFrom | aws/ddbutil/generic.go:38-66 | With no cancellation or failure, the results are one error-free result per page, each holding its page's conversions. Their concatenated items are all raw items converted in fetch order. |
| DdbUtil.ExhaustCursors | aws/ddbutil/generic.go:59-62 | In such a run, the queries use the current cursor and then each page's `LastEvaluatedKey`. |
| DdbUtil.Exhaustion | aws/ddbutil/generic.go:38-66 | N pages with only the last key empty, no cancellation and no failure give N error-free results in page order. Their items together are all pages' items converted in fetch order. The N queries use the start key, then each page's key. |
| Stack.FormatFrame | xerr/stack.go:27-48 | `%d` text reads back as the line number. A verb other than s, d, n and v writes nothing. |
| Stack.FrameVerbN | xerr/stack.go:40-41 | `%n` writes only the function name. |
| Stack.FrameVerbS | xerr/stack.go:35-36 | `%s` writes only the last path element of the file, e.g. "stack_test.go". |
| Stack.FrameVerbPlus | xerr/stack.go:31-34 | `%+s` writes the function, "\n\r" and the full path. `%+v` adds ":" and the line. |
| Stack.FrameVerbV | xerr/stack.go:42-46 | `%v` is the `%s` text (with '+' carried over), then ":", then the `%d` text. The last ':' separates the two, and the line number reads back from the rest. |
| Stack.WriteFrame | xerr/stack.go:27-48 | Writing a frame appends exactly `FormatFrame`'s text for the verb and the state's '+' flag. |
| Stack.State.WriteString | xerr/stack.go:32-34 | Writing appends the text to what was written. |
| Stack.SplitJoin | xerr/stack.go:101-106 | Joining newline-free lines with "\n" and splitting again at "\n" gives back the lines. |
| Stack.TraceLines | xerr/stack.go:95-107 | An empty trace writes nothing. For k >= 1 frames whose texts hold no newline, the text splits at "\n" into exactly the k frame texts in order: k-1 separators, none trailing. |
| Stack.FormatTrace | xerr/stack.go:95-107 | The loop appends exactly `TraceText`: the frames' texts joined by "\n". |
| Stack.NewStackTraceArgs | xerr/stack.go:60-71 | Skip defaults to 0 and depth to 32. `args[0]` sets skip, `args[1]` sets depth, and further arguments are ignored. |
| Stack.Recorded | xerr/stack.go:73-81 | At most `depth` frames are recorded, consecutive on the stack, from the first frame after the skipped ones. None are recorded iff depth is 0 or the stack is exhausted. |
| Stack.NewStackTrace | xerr/stack.go:59-91 | The collecting loop returns exactly the recorded frames (at most `depth`, nil when none). |
| GoStd.ItoaRoundTrip | xerr/stack.go:39 | `strconv.Itoa`'s text reads back as the same integer. |
| GoStd.Itoa | xerr/stack.go:39 | The text is non-empty and starts with '-' iff the number is negative. A non-negative number gives only digits; a negative one gives '-' followed only by digits. There is no leading zero: the text starts with '0' only for 0, which gives exactly "0". |
| GoStd.Base | xerr/stack.go:36 | `path.Base` is non-empty and is "/" or free of slashes. |
| Stack.FrameVerbSBare | xerr/stack.go:36 | `%s` of a frame whose file has no slash writes the file name unchanged. |
| GoStd.BaseOfJoined | xerr/stack.go:36 | The base of `dir/name` is `name`. |
| GoStd.RemoveAll | cmd/makeversion/makeversion.go:28-29 | `strings.ReplaceAll(s, c, "")` leaves no `c` and keeps every other character's count. |
| GoStd.RemoveAllConcat | cmd/makeversion/makeversion.go:28-29 | Removal works piecewise, so the kept characters stay in order. |
| XErr.Error.StackTrace | xerr/errors.go:17-19 | `StackTrace()` returns exactly the stored trace, which is what `GetStackTrace` finds on the decorator. |
| XErr.AsStackTraceError | xerr/errors.go:26 | errors.As only ever stops at a StackTraceError. |
| XErr.AsFindsFirst | xerr/errors.go:21-30 | errors.As finds nothing iff the unwrap chain holds no StackTraceError. Otherwise it finds the first one on the chain. |
| XErr.Error.Message | xerr/errors.go:13-15 | A StackTraceError reports its root's message, so a stack of decorators reports the message of the first error under them that is no decorator. |
| XErr.GetStackTrace | xerr/errors.go:21-31 | On a decorator it returns that decorator's trace; on a plain error it returns nil; on a wrapping error it returns what the search finds on the wrapped error. |
| XErr.GetStackTraceFindsFirst | xerr/errors.go:21-28 | `GetStackTrace` returns the trace of the first StackTraceError on the unwrap chain. |
| XErr.GetStackTraceNone | xerr/errors.go:30 | With no StackTraceError on the chain, `GetStackTrace` returns nil. |
| XErr.DecoratorIsOpaque | xerr/errors.go:8-19 | A StackTraceError has no Unwrap. The search stops at it and never reaches its root. |
| XErr.StackTraceErr | xerr/errors.go:33-38 | `StackTraceErr(msg)` reports `msg` and carries the trace `NewStackTrace(1)` captures. |
| XErr.AddStackTrace | xerr/errors.go:40-45 | `AddStackTrace(err)` keeps `err`'s message and carries the trace `NewStackTrace(1)` captures. |
| XErr.DecoratorTraceStartsAtCaller | xerr/errors.go:33-45 | Both constructors record the same trace. It holds at most 32 frames and starts at the constructor's caller, or is nil when the stack ends before it. |
| MakeVersion.Strip | cmd/makeversion/makeversion.go:28-29 | The stripped text holds no '\r' or '\n' and keeps every other character's count. |
| MakeVersion.StripKeepsOrder | cmd/makeversion/makeversion.go:28-29 | Stripping works piecewise, so the other characters keep their order. A text without line breaks is unchanged. |
| MakeVersion.NormalizeAsWritten | cmd/makeversion/makeversion.go:22-33 | As written, the exit-1 rejection happens exactly for empty raw output. A produced version holds no line break and starts with the stripped output. |
| MakeVersion.Normalize | cmd/makeversion/makeversion.go:22-33 | The corrected normalisation fails exactly when the output strips to nothing, and then only with the exit-1 rejection. A produced version holds no line break and starts with the stripped output. |
| MakeVersion.AsWrittenPanics | cmd/makeversion/makeversion.go:22-31 | As written, output made only of line breaks (e.g. "\n") passes the emptiness test and then indexes an empty string. This happens exactly when the output is non-empty and strips to nothing. |
| MakeVersion.NormalizeCorrected | cmd/makeversion/makeversion.go:22-33 | The corrected normalisation never indexes an empty string. It rejects with exit code 1 exactly the outputs that strip to nothing, and otherwise agrees with the code as written. |
| MakeVersion.NormalizedText | cmd/makeversion/makeversion.go:28-33 | A version holds no line break and starts with the stripped output. It is that text iff the text starts with 'v', and that text plus "-dev" otherwise. |
| MakeVersion.NormalizeTwice | cmd/makeversion/makeversion.go:31-33 | Normalising again leaves a 'v' version unchanged but appends a second "-dev" to any other. |

## Left out

- The goroutine, the channel's buffer of 2 and the blocking of a full channel. The channel is the ordered `Publish` events, and `close` is the final `Close` event.
- `client.Query` and `attributevalue.UnmarshalMap` are SDK calls. They are inputs: a sequence of responses indexed by call number, and a total unmarshal function. The query input other than `ExclusiveStartKey` is not modelled.
- `ctx.Done()` is a per-iteration oracle `canceled(i)`. Concurrent cancellation during a call is not modelled.
- `fmt.Errorf("%w: %v", ...)` keeps only the sentinel and the cause's text. `errors.Is` on these errors is not modelled.
- The page counter `p` is never read.
- DdbUtil.QueryAsync: requires a finite response source, whose last response fails or has an empty key. A pagination whose key never becomes empty makes the Go loop run forever, and that is not modelled.
- `runtime.Callers` and `runtime.CallersFrames` are not modelled. The goroutine's stack is an input sequence of frames, where element 0 is `runtime.Callers` and element 1 is `NewStackTrace`.
- Stack.NewStackTrace: requires the depth argument to be non-negative. Go's `make` panics on a negative length, and that panic is not modelled. Skip and depth are unbounded integers, not Go's 64-bit `int`. So `2+skip` (xerr/stack.go:74) does not wrap when skip is near `math.MaxInt`; Go would then pass a negative skip to `runtime.Callers` and record from the stack's start, while the model records nothing. Also, `make` panics on a depth too large to allocate (xerr/stack.go:73), and the model still returns the recorded frames.
- `fmt.State` is reduced to the written text and the '+' flag. Width, precision, other flags and write errors (which the source discards) are left out.
- `runtime.Frame` is reduced to function name, file and line.
- DdbUtil.QueryResult: `items` is a sequence, so Go's nil slice (the cancel and client-failure results, aws/ddbutil/generic.go:41 and 46) and the empty non-nil slice made at line 49 are not told apart.
- XErr.Error: there is no nil error. `GetStackTrace(nil)` (nil trace), `AddStackTrace(nil)` (a decorator whose `Error()` panics at xerr/errors.go:14) and an `Unwrap` that returns nil are not modelled.
- Strings are sequences of characters, one character per byte of a Go string.
- Errors are modelled as `errors.New`, single-`%w` wrapping and `*StackTraceError`. `Unwrap() []error`, custom `As` methods and pointer identity are left out.
- In makeversion: running `git` (and its failure exit), creating and writing `version.txt` (exit codes 2 and 3) and printing the version are process and file I/O. They are not part of this model.
- aws/default.go (SSM, configuration, S3 upload) and datautil/structinput.go (stdin and reflection) are not part of this model.

## Findings

| source | as written | input that shows it | evidently intended | confidence | as-written member | corrected member |
|---|---|---|---|---|---|---|
| cmd/makeversion/makeversion.go:23-31 | The emptiness test is on the raw `git` output, but `version[0]` indexes the text after `\r` and `\n` are stripped | `git describe` output "\n" (or "\r\n") | Reject output that strips to nothing with "git returned empty data" and exit code 1 | high; not executed | MakeVersion.AsWrittenPanics | MakeVersion.NormalizeCorrected |
