/**
 * QueryAsync of package ddbutil: a worker that runs a paged DynamoDB query
 * page after page, converts each page's raw items, and publishes one
 * QueryResult per page on its output channel until the last page, a
 * cancellation or a failure, then closes the channel.
 *
 * The worker's observable behaviour is its sequence of Events: the Query
 * calls it makes to the client (with the cursor it passes), the Unmarshal
 * calls it makes per raw item, the results it publishes on the channel and
 * the final close. The client, the unmarshaler and the context are inputs:
 * `responses[i]` is what the i-th Query call returns, `unmarshal` converts one
 * raw item, and `canceled(i)` says whether the context is done at the top of
 * iteration i.
 */
module DdbUtil {
  import opened Wrappers
  import opened Seqs

  /** The three sentinels ErrQueryContextCanceled, ErrQueryDdbClientError and ErrQueryCannotUnmarshal. */
  datatype Sentinel = ContextCanceled | DdbClientError | CannotUnmarshal

  /** The sentinels' messages. */
  function SentinelText(s: Sentinel): string
  {
    match s
    case ContextCanceled => "context canceled"
    case DdbClientError => "dynamodb client returned error"
    case CannotUnmarshal => "failed to unmarshal item"
  }

  /**
   * An error a QueryResult can carry: a sentinel itself, or
   * fmt.Errorf("%w: %v", sentinel, cause), which unwraps to the sentinel and
   * keeps only the text of the underlying error.
   */
  datatype QueryError = Bare(sentinel: Sentinel) | Wrapped(sentinel: Sentinel, cause: string)
  {
    /** Error(): the sentinel's message, then ": " and the cause when wrapped. */
    function Message(): (m: string)
      ensures SentinelText(sentinel) <= m
      ensures Bare? ==> m == SentinelText(sentinel)
      ensures Wrapped? ==> m[|SentinelText(sentinel)|..] == ": " + cause
    {
      match this
      case Bare(s) => SentinelText(s)
      case Wrapped(s, c) => SentinelText(s) + ": " + c
    }
  }

  /** A DynamoDB key (ExclusiveStartKey / LastEvaluatedKey); attribute values are kept as opaque text. */
  type Cursor = map<string, string>

  /** QueryResult[T]: the items of one page, or the error that ended the worker. */
  datatype QueryResult<T> = QueryResult(items: seq<T>, error: Option<QueryError>)

  /** What one client.Query call returns: an error, or a page of raw items and its LastEvaluatedKey. */
  datatype Response<Item> = Failed(cause: string) | Page(items: seq<Item>, lastEvaluatedKey: Cursor)

  /** What the worker does that can be observed from outside, in order. */
  datatype Event<Item, T> =
    | Query(cursor: Cursor)
    | Unmarshal(item: Item)
    | Publish(result: QueryResult<T>)
    | Close

  /** The items converted before the first failing one, and that failure. */
  datatype Conversion<T> = Conversion(items: seq<T>, failure: Option<string>)

  /** Converting a page item by item, stopping at the first failure. */
  function ConvertPage<Item, T>(raw: seq<Item>, unmarshal: Item -> Result<T, string>): (c: Conversion<T>)
    ensures c.failure.None? ==> |c.items| == |raw|
    ensures c.failure.Some? ==> |c.items| < |raw|
  {
    if raw == [] then Conversion([], None)
    else
      match unmarshal(raw[0])
      case Err(e) => Conversion([], Some(e))
      case Ok(t) =>
        var rest := ConvertPage(raw[1..], unmarshal);
        Conversion([t] + rest.items, rest.failure)
  }

  /**
   * The converted items are exactly the conversions of the raw items before
   * the first failing one, in order, and the failure is that item's error.
   */
  lemma {:induction false} ConvertPageSpec<Item, T>(raw: seq<Item>, unmarshal: Item -> Result<T, string>)
    ensures var c := ConvertPage(raw, unmarshal);
      && (forall k :: 0 <= k < |c.items| ==> unmarshal(raw[k]) == Ok(c.items[k]))
      && (c.failure.Some? ==> unmarshal(raw[|c.items|]) == Err(c.failure.value))
  {
    if raw != [] && unmarshal(raw[0]).Ok? {
      var c, rest := ConvertPage(raw, unmarshal), ConvertPage(raw[1..], unmarshal);
      ConvertPageSpec(raw[1..], unmarshal);
      assert c.items == [unmarshal(raw[0]).value] + rest.items;
      forall k | 0 < k < |c.items|
        ensures unmarshal(raw[k]) == Ok(c.items[k])
      {
        assert raw[k] == raw[1..][k - 1];
      }
      if c.failure.Some? {
        assert raw[|c.items|] == raw[1..][|rest.items|];
      }
    }
  }

  /** A page whose raw items all convert has no failure. */
  lemma {:induction false} ConvertAllOk<Item, T>(raw: seq<Item>, unmarshal: Item -> Result<T, string>)
    requires forall m :: 0 <= m < |raw| ==> unmarshal(raw[m]).Ok?
    ensures ConvertPage(raw, unmarshal).failure.None?
  {
    if raw != [] {
      assert forall m :: 0 <= m < |raw| - 1 ==> raw[1..][m] == raw[m + 1];
      ConvertAllOk(raw[1..], unmarshal);
    }
  }

  /** A page whose first failing raw item is item j converts exactly j items and fails on item j. */
  lemma {:induction false} ConvertFirstFailure<Item, T>(raw: seq<Item>, unmarshal: Item -> Result<T, string>, j: nat)
    requires j < |raw| && unmarshal(raw[j]).Err?
    requires forall m :: 0 <= m < j ==> unmarshal(raw[m]).Ok?
    ensures |ConvertPage(raw, unmarshal).items| == j
    ensures ConvertPage(raw, unmarshal).failure == Some(unmarshal(raw[j]).error)
  {
    if j > 0 {
      assert unmarshal(raw[0]).Ok?;
      assert raw[1..][j - 1] == raw[j];
      assert forall m :: 0 <= m < j - 1 ==> raw[1..][m] == raw[m + 1];
      ConvertFirstFailure(raw[1..], unmarshal, j - 1);
    }
  }

  /** How many unmarshal calls a conversion made: one per converted item, plus the failing one. */
  function Attempts<T>(c: Conversion<T>): nat
  {
    |c.items| + if c.failure.Some? then 1 else 0
  }

  /** One Unmarshal event per raw item, in order. */
  function UnmarshalCalls<Item, T>(raw: seq<Item>): seq<Event<Item, T>>
  {
    seq(|raw|, k requires 0 <= k < |raw| => Unmarshal(raw[k]))
  }

  /** The Unmarshal calls converting a page makes: one per item, up to and including the first failing one. */
  function PageCalls<Item, T>(raw: seq<Item>, unmarshal: Item -> Result<T, string>): seq<Event<Item, T>>
  {
    if raw == [] then []
    else [Unmarshal(raw[0])] + if unmarshal(raw[0]).Err? then [] else PageCalls(raw[1..], unmarshal)
  }

  /** Converting a page unmarshals exactly the items it converts and the one it fails on, in order. */
  lemma {:induction false} PageCallsSpec<Item, T>(raw: seq<Item>, unmarshal: Item -> Result<T, string>)
    ensures PageCalls(raw, unmarshal) == UnmarshalCalls(raw[..Attempts(ConvertPage(raw, unmarshal))])
  {
    if raw != [] {
      var n := Attempts(ConvertPage(raw, unmarshal));
      if unmarshal(raw[0]).Err? {
        assert n == 1;
      } else {
        var n' := Attempts(ConvertPage(raw[1..], unmarshal));
        PageCallsSpec(raw[1..], unmarshal);
        assert n == n' + 1;
        assert raw[..n][1..] == raw[1..][..n'];
      }
    }
  }

  /**
   * The source is finite: its last response either fails or has an empty
   * LastEvaluatedKey, so no run asks for more responses than there are.
   */
  predicate Finite<Item>(responses: seq<Response<Item>>)
  {
    |responses| > 0 && (responses[|responses| - 1].Failed? || |responses[|responses| - 1].lastEvaluatedKey| == 0)
  }

  /** Iteration i is the worker's last: canceled, a client failure, an unmarshal failure or an empty key. */
  predicate Ends<Item, T>(canceled: nat -> bool, responses: seq<Response<Item>>,
                          unmarshal: Item -> Result<T, string>, i: nat)
    requires i < |responses|
  {
    || canceled(i)
    || responses[i].Failed?
    || ConvertPage(responses[i].items, unmarshal).failure.Some?
    || |responses[i].lastEvaluatedKey| == 0
  }

  /** The result iteration i publishes. */
  function IterationResult<Item, T>(canceled: nat -> bool, responses: seq<Response<Item>>,
                                    unmarshal: Item -> Result<T, string>, i: nat): QueryResult<T>
    requires i < |responses|
  {
    if canceled(i) then QueryResult([], Some(Bare(ContextCanceled)))
    else
      match responses[i]
      case Failed(cause) => QueryResult([], Some(Wrapped(DdbClientError, cause)))
      case Page(raw, _) =>
        var c := ConvertPage(raw, unmarshal);
        if c.failure.Some? then QueryResult(c.items, Some(Wrapped(CannotUnmarshal, c.failure.value)))
        else QueryResult(c.items, None)
  }

  /** The client and unmarshaler calls iteration i makes when the cursor is `cursor`. */
  function IterationCalls<Item, T>(canceled: nat -> bool, responses: seq<Response<Item>>,
                                   unmarshal: Item -> Result<T, string>, i: nat, cursor: Cursor): seq<Event<Item, T>>
    requires i < |responses|
  {
    if canceled(i) then []
    else
      match responses[i]
      case Failed(_) => [Query(cursor)]
      case Page(raw, _) =>
        [Query(cursor)] + PageCalls(raw, unmarshal)
  }

  /**
   * The worker loop from iteration i with cursor `cursor`: each iteration's
   * calls and published result, then, unless it was the last, the next
   * iteration with the page's LastEvaluatedKey as cursor.
   */
  function Run<Item, T>(canceled: nat -> bool, responses: seq<Response<Item>>,
                        unmarshal: Item -> Result<T, string>, i: nat, cursor: Cursor): seq<Event<Item, T>>
    requires Finite(responses) && i < |responses|
    decreases |responses| - i
  {
    IterationCalls(canceled, responses, unmarshal, i, cursor)
      + [Publish(IterationResult(canceled, responses, unmarshal, i))]
      + if Ends(canceled, responses, unmarshal, i) then []
        else Run(canceled, responses, unmarshal, i + 1, responses[i].lastEvaluatedKey)
  }

  /** Everything QueryAsync does, from the first iteration to the deferred close. */
  function Worker<Item, T>(canceled: nat -> bool, responses: seq<Response<Item>>,
                           unmarshal: Item -> Result<T, string>, start: Cursor): seq<Event<Item, T>>
    requires Finite(responses)
  {
    Run(canceled, responses, unmarshal, 0, start) + [Close]
  }

  /**
   * QueryAsync's worker goroutine: loops until cancellation, a client or
   * unmarshal failure, or an empty LastEvaluatedKey, publishing one result per
   * iteration, and closes the channel on every exit.
   */
  method QueryAsync<Item, T>(canceled: nat -> bool, responses: seq<Response<Item>>,
                             unmarshal: Item -> Result<T, string>, start: Cursor)
    returns (events: seq<Event<Item, T>>)
    requires Finite(responses)
    ensures events == Worker(canceled, responses, unmarshal, start)
  {
    ghost var total := Run(canceled, responses, unmarshal, 0, start);
    events := [];
    var cursor := start;
    var i := 0;
    assert events + Run(canceled, responses, unmarshal, i, cursor) == total;
    while true
      invariant i < |responses|
      invariant events + Run(canceled, responses, unmarshal, i, cursor) == total
      decreases |responses| - i
    {
      var last, next;
      events, last, next := Iteration(canceled, responses, unmarshal, i, cursor, events);
      if last {
        break;
      }
      i := i + 1;
      cursor := next;
    }
    events := events + [Close];
  }

  /**
   * One pass of the worker's loop body with cursor `cursor`: the cancellation
   * check, the Query call and the page's conversion, appended to the events
   * so far; also whether it returns from the goroutine and, if not, the next
   * cursor.
   */
  method Iteration<Item, T>(canceled: nat -> bool, responses: seq<Response<Item>>,
                            unmarshal: Item -> Result<T, string>, i: nat, cursor: Cursor,
                            before: seq<Event<Item, T>>)
    returns (after: seq<Event<Item, T>>, last: bool, next: Cursor)
    requires Finite(responses) && i < |responses|
    ensures last == Ends(canceled, responses, unmarshal, i)
    ensures !last ==> next == responses[i].lastEvaluatedKey
    ensures last ==> after == before + Run(canceled, responses, unmarshal, i, cursor)
    ensures !last ==> i + 1 < |responses|
    ensures !last ==> after + Run(canceled, responses, unmarshal, i + 1, next) == before + Run(canceled, responses, unmarshal, i, cursor)
  {
    last, next := true, cursor;
    var step: seq<Event<Item, T>>;
    if canceled(i) {
      step := [Publish(QueryResult([], Some(Bare(ContextCanceled))))];
    } else {
      match responses[i] {
        case Failed(cause) =>
          step := [Query(cursor), Publish(QueryResult([], Some(Wrapped(DdbClientError, cause))))];
        case Page(raw, key) =>
          var items, failure, calls := UnmarshalPage(raw, unmarshal);
          if failure.Some? {
            step := [Query(cursor)] + calls + [Publish(QueryResult(items, Some(Wrapped(CannotUnmarshal, failure.value))))];
          } else {
            step := [Query(cursor)] + calls + [Publish(QueryResult(items, None))];
            next := key;
            last := |next| == 0;
          }
      }
    }
    RunUnfold(canceled, responses, unmarshal, i, cursor, step, last, next);
    after := before + step;
    if !last {
      AppendAssoc(before, step, Run(canceled, responses, unmarshal, i + 1, next));
    }
  }

  /** Run from iteration i is that iteration's events, then, unless it ends the run, the run from i + 1. */
  lemma RunUnfold<Item, T>(canceled: nat -> bool, responses: seq<Response<Item>>,
                         unmarshal: Item -> Result<T, string>, i: nat, cursor: Cursor,
                         step: seq<Event<Item, T>>, last: bool, next: Cursor)
    requires Finite(responses) && i < |responses|
    requires step == IterationCalls(canceled, responses, unmarshal, i, cursor)
      + [Publish(IterationResult(canceled, responses, unmarshal, i))]
    requires last == Ends(canceled, responses, unmarshal, i)
    requires !last ==> next == responses[i].lastEvaluatedKey
    ensures !last ==> i + 1 < |responses|
    ensures Run(canceled, responses, unmarshal, i, cursor)
      == step + if last then [] else Run(canceled, responses, unmarshal, i + 1, next)
  {
  }

  /**
   * The per-page loop of the worker: unmarshals the raw items in order,
   * appending each converted one, and stops at the first failure. Returns the
   * converted items, the failure, and the unmarshal calls made.
   */
  method UnmarshalPage<Item, T>(raw: seq<Item>, unmarshal: Item -> Result<T, string>)
    returns (items: seq<T>, failure: Option<string>, calls: seq<Event<Item, T>>)
    ensures Conversion(items, failure) == ConvertPage(raw, unmarshal)
    ensures calls == PageCalls(raw, unmarshal)
  {
    items, failure, calls := [], None, [];
    var j := 0;
    assert raw[j..] == raw;
    while j < |raw|
      invariant j <= |raw|
      invariant var rest := ConvertPage(raw[j..], unmarshal);
        ConvertPage(raw, unmarshal) == Conversion(items + rest.items, rest.failure)
      invariant PageCalls(raw, unmarshal) == calls + PageCalls(raw[j..], unmarshal)
    {
      assert raw[j..][0] == raw[j] && raw[j..][1..] == raw[j + 1..];
      match unmarshal(raw[j]) {
        case Err(e) =>
          assert calls + PageCalls(raw[j..], unmarshal) == calls + [Unmarshal(raw[j])];
          assert items + [] == items;
          calls := calls + [Unmarshal(raw[j])];
          failure := Some(e);
          return;
        case Ok(t) =>
          var rest := ConvertPage(raw[j + 1..], unmarshal);
          AppendAssoc(items, [t], rest.items);
          AppendAssoc(calls, [Unmarshal(raw[j])], PageCalls(raw[j + 1..], unmarshal));
          calls := calls + [Unmarshal(raw[j])];
          items := items + [t];
      }
      j := j + 1;
    }
    assert raw[j..] == [];
    assert items + [] == items && calls + [] == calls;
  }

  /** The last iteration the worker runs when it starts at iteration i: the first one that ends it. */
  function LastIteration<Item, T>(canceled: nat -> bool, responses: seq<Response<Item>>,
                                  unmarshal: Item -> Result<T, string>, i: nat): (r: nat)
    requires Finite(responses) && i < |responses|
    ensures i <= r < |responses| && Ends(canceled, responses, unmarshal, r)
    decreases |responses| - i
  {
    if Ends(canceled, responses, unmarshal, i) then i else LastIteration(canceled, responses, unmarshal, i + 1)
  }

  /** No iteration before the last one ends the run. */
  lemma {:induction false} LastIterationIsFirst<Item, T>(canceled: nat -> bool, responses: seq<Response<Item>>,
                                                         unmarshal: Item -> Result<T, string>, i: nat)
    requires Finite(responses) && i < |responses|
    ensures forall k :: i <= k < LastIteration(canceled, responses, unmarshal, i) ==> !Ends(canceled, responses, unmarshal, k)
    decreases |responses| - i
  {
    if !Ends(canceled, responses, unmarshal, i) {
      LastIterationIsFirst(canceled, responses, unmarshal, i + 1);
    }
  }

  /** The results published on the channel, in order. */
  function Published<Item, T>(events: seq<Event<Item, T>>): seq<QueryResult<T>>
  {
    if events == [] then []
    else (if events[0].Publish? then [events[0].result] else []) + Published(events[1..])
  }

  /** The cursors passed to client.Query, in order. */
  function Queried<Item, T>(events: seq<Event<Item, T>>): seq<Cursor>
  {
    if events == [] then []
    else (if events[0].Query? then [events[0].cursor] else []) + Queried(events[1..])
  }

  /** How many times the channel is closed. */
  function Closes<Item, T>(events: seq<Event<Item, T>>): nat
  {
    if events == [] then 0
    else (if events[0].Close? then 1 else 0) + Closes(events[1..])
  }

  /** The projections of a concatenation are the concatenations of the projections. */
  lemma ProjectionsConcat<Item, T>(a: seq<Event<Item, T>>, b: seq<Event<Item, T>>)
    ensures Published(a + b) == Published(a) + Published(b)
    ensures Queried(a + b) == Queried(a) + Queried(b)
    ensures Closes(a + b) == Closes(a) + Closes(b)
  {
    PublishedConcat(a, b);
    QueriedConcat(a, b);
    ClosesConcat(a, b);
  }

  lemma {:induction false} PublishedConcat<Item, T>(a: seq<Event<Item, T>>, b: seq<Event<Item, T>>)
    ensures Published(a + b) == Published(a) + Published(b)
  {
    if a == [] {
      assert a + b == b;
    } else {
      assert (a + b)[0] == a[0];
      assert (a + b)[1..] == a[1..] + b;
      PublishedConcat(a[1..], b);
    }
  }

  lemma {:induction false} QueriedConcat<Item, T>(a: seq<Event<Item, T>>, b: seq<Event<Item, T>>)
    ensures Queried(a + b) == Queried(a) + Queried(b)
  {
    if a == [] {
      assert a + b == b;
    } else {
      assert (a + b)[0] == a[0];
      assert (a + b)[1..] == a[1..] + b;
      QueriedConcat(a[1..], b);
    }
  }

  lemma {:induction false} ClosesConcat<Item, T>(a: seq<Event<Item, T>>, b: seq<Event<Item, T>>)
    ensures Closes(a + b) == Closes(a) + Closes(b)
  {
    if a == [] {
      assert a + b == b;
    } else {
      assert (a + b)[0] == a[0];
      assert (a + b)[1..] == a[1..] + b;
      ClosesConcat(a[1..], b);
    }
  }

  /** A trace with no Close in it has no Close at any position. */
  lemma {:induction false} NoCloseAnywhere<Item, T>(events: seq<Event<Item, T>>)
    requires Closes(events) == 0
    ensures forall k :: 0 <= k < |events| ==> !events[k].Close?
  {
    if events != [] {
      NoCloseAnywhere(events[1..]);
      assert forall k :: 0 < k < |events| ==> events[k] == events[1..][k - 1];
    }
  }

  /** A single event publishes its result if it is a Publish, queries its cursor if it is a Query, closes if it is the Close. */
  lemma SingletonProjections<Item, T>(e: Event<Item, T>)
    ensures Published([e]) == if e.Publish? then [e.result] else []
    ensures Queried([e]) == if e.Query? then [e.cursor] else []
    ensures Closes([e]) == if e.Close? then 1 else 0
  {
    assert [e][1..] == [];
  }

  /** Unmarshal calls neither publish, query nor close. */
  lemma {:induction false} PageCallsProjections<Item, T>(raw: seq<Item>, unmarshal: Item -> Result<T, string>)
    ensures var calls := PageCalls(raw, unmarshal);
      Published(calls) == [] && Queried(calls) == [] && Closes(calls) == 0
  {
    if raw != [] {
      var head: seq<Event<Item, T>> := [Unmarshal(raw[0])];
      SingletonProjections(head[0]);
      if unmarshal(raw[0]).Err? {
        assert PageCalls(raw, unmarshal) == head;
      } else {
        PageCallsProjections(raw[1..], unmarshal);
        ProjectionsConcat(head, PageCalls(raw[1..], unmarshal));
      }
    }
  }

  /** The calls of iteration i publish nothing, query once unless it saw the cancellation, and never close. */
  lemma IterationCallsProjections<Item, T>(canceled: nat -> bool, responses: seq<Response<Item>>,
                                           unmarshal: Item -> Result<T, string>, i: nat, cursor: Cursor)
    requires i < |responses|
    ensures var calls := IterationCalls(canceled, responses, unmarshal, i, cursor);
      && Published(calls) == []
      && Queried(calls) == (if canceled(i) then [] else [cursor])
      && Closes(calls) == 0
  {
    if !canceled(i) {
      var query: seq<Event<Item, T>> := [Query(cursor)];
      SingletonProjections(query[0]);
      if responses[i].Page? {
        var raw := responses[i].items;
        PageCallsProjections(raw, unmarshal);
        ProjectionsConcat(query, PageCalls(raw, unmarshal));
      }
    }
  }

  /**
   * What iteration i contributes to the projections: its one result, its
   * one Query call with the current cursor unless it saw the cancellation,
   * and no Close.
   */
  lemma IterationProjections<Item, T>(canceled: nat -> bool, responses: seq<Response<Item>>,
                                      unmarshal: Item -> Result<T, string>, i: nat, cursor: Cursor)
    requires i < |responses|
    ensures var step := IterationCalls(canceled, responses, unmarshal, i, cursor)
      + [Publish(IterationResult(canceled, responses, unmarshal, i))];
      && Published(step) == [IterationResult(canceled, responses, unmarshal, i)]
      && Queried(step) == (if canceled(i) then [] else [cursor])
      && Closes(step) == 0
  {
    var calls := IterationCalls(canceled, responses, unmarshal, i, cursor);
    var publish := Publish(IterationResult(canceled, responses, unmarshal, i));
    IterationCallsProjections(canceled, responses, unmarshal, i, cursor);
    SingletonProjections(publish);
    ProjectionsConcat(calls, [publish]);
  }

  /** The results a run from iteration i publishes: each iteration's, up to and including the last. */
  function ResultsFrom<Item, T>(canceled: nat -> bool, responses: seq<Response<Item>>,
                                unmarshal: Item -> Result<T, string>, i: nat): seq<QueryResult<T>>
    requires Finite(responses) && i < |responses|
    decreases |responses| - i
  {
    [IterationResult(canceled, responses, unmarshal, i)]
      + if Ends(canceled, responses, unmarshal, i) then [] else ResultsFrom(canceled, responses, unmarshal, i + 1)
  }

  /**
   * The cursors a run from iteration i with cursor `cursor` queries with: each
   * iteration's, unless it saw the cancellation, the next iteration's cursor
   * being the page's LastEvaluatedKey.
   */
  function CursorsFrom<Item, T>(canceled: nat -> bool, responses: seq<Response<Item>>,
                                unmarshal: Item -> Result<T, string>, i: nat, cursor: Cursor): seq<Cursor>
    requires Finite(responses) && i < |responses|
    decreases |responses| - i
  {
    (if canceled(i) then [] else [cursor])
      + if Ends(canceled, responses, unmarshal, i) then []
        else CursorsFrom(canceled, responses, unmarshal, i + 1, responses[i].lastEvaluatedKey)
  }

  /** The results a run publishes on the channel, in order, are one per iteration. */
  lemma {:induction false} RunPublished<Item, T>(canceled: nat -> bool, responses: seq<Response<Item>>,
                                                 unmarshal: Item -> Result<T, string>, i: nat, cursor: Cursor)
    requires Finite(responses) && i < |responses|
    ensures Published(Run(canceled, responses, unmarshal, i, cursor)) == ResultsFrom(canceled, responses, unmarshal, i)
    decreases |responses| - i
  {
    var result := IterationResult(canceled, responses, unmarshal, i);
    if Ends(canceled, responses, unmarshal, i) {
      assert Published(Run(canceled, responses, unmarshal, i, cursor)) == [result] by {
        IterationProjections(canceled, responses, unmarshal, i, cursor);
        assert Run(canceled, responses, unmarshal, i, cursor)
            == IterationCalls(canceled, responses, unmarshal, i, cursor) + [Publish(result)];
      }
    } else {
      var next := responses[i].lastEvaluatedKey;
      assert Published(Run(canceled, responses, unmarshal, i, cursor))
          == [result] + Published(Run(canceled, responses, unmarshal, i + 1, next)) by {
        var step := IterationCalls(canceled, responses, unmarshal, i, cursor) + [Publish(result)];
        var rest := Run(canceled, responses, unmarshal, i + 1, next);
        IterationProjections(canceled, responses, unmarshal, i, cursor);
        assert Run(canceled, responses, unmarshal, i, cursor) == step + rest;
        PublishedConcat(step, rest);
      }
      RunPublished(canceled, responses, unmarshal, i + 1, next);
    }
  }

  /** The cursors a run passes to client.Query, in order, are one per iteration that did not see the cancellation. */
  lemma {:induction false} RunQueried<Item, T>(canceled: nat -> bool, responses: seq<Response<Item>>,
                                               unmarshal: Item -> Result<T, string>, i: nat, cursor: Cursor)
    requires Finite(responses) && i < |responses|
    ensures Queried(Run(canceled, responses, unmarshal, i, cursor)) == CursorsFrom(canceled, responses, unmarshal, i, cursor)
    decreases |responses| - i
  {
    var queried: seq<Cursor> := if canceled(i) then [] else [cursor];
    if Ends(canceled, responses, unmarshal, i) {
      assert Queried(Run(canceled, responses, unmarshal, i, cursor)) == queried by {
        IterationProjections(canceled, responses, unmarshal, i, cursor);
        assert Run(canceled, responses, unmarshal, i, cursor)
            == IterationCalls(canceled, responses, unmarshal, i, cursor)
               + [Publish(IterationResult(canceled, responses, unmarshal, i))];
      }
    } else {
      var next := responses[i].lastEvaluatedKey;
      assert Queried(Run(canceled, responses, unmarshal, i, cursor))
          == queried + Queried(Run(canceled, responses, unmarshal, i + 1, next)) by {
        var step := IterationCalls(canceled, responses, unmarshal, i, cursor)
          + [Publish(IterationResult(canceled, responses, unmarshal, i))];
        var rest := Run(canceled, responses, unmarshal, i + 1, next);
        IterationProjections(canceled, responses, unmarshal, i, cursor);
        assert Run(canceled, responses, unmarshal, i, cursor) == step + rest;
        QueriedConcat(step, rest);
      }
      RunQueried(canceled, responses, unmarshal, i + 1, next);
    }
  }

  /**
   * One result per iteration up to the last: all of them error-free except
   * possibly the last one, which is the last iteration's.
   */
  lemma {:induction false} ResultsShape<Item, T>(canceled: nat -> bool, responses: seq<Response<Item>>,
                                                 unmarshal: Item -> Result<T, string>, i: nat)
    requires Finite(responses) && i < |responses|
    ensures var r := ResultsFrom(canceled, responses, unmarshal, i);
      var last := LastIteration(canceled, responses, unmarshal, i);
      && |r| == last - i + 1
      && r[|r| - 1] == IterationResult(canceled, responses, unmarshal, last)
      && forall k :: 0 <= k < |r| - 1 ==> r[k].error.None?
    decreases |responses| - i
  {
    var r := ResultsFrom(canceled, responses, unmarshal, i);
    if !Ends(canceled, responses, unmarshal, i) {
      ResultsShape(canceled, responses, unmarshal, i + 1);
      var r' := ResultsFrom(canceled, responses, unmarshal, i + 1);
      assert r == [IterationResult(canceled, responses, unmarshal, i)] + r';
      assert IterationResult(canceled, responses, unmarshal, i).error.None?;
      forall k | 0 < k < |r| - 1
        ensures r[k].error.None?
      {
        assert r[k] == r'[k - 1];
      }
    }
  }

  /** A run never closes the channel itself. */
  lemma {:induction false} RunCloses<Item, T>(canceled: nat -> bool, responses: seq<Response<Item>>,
                                              unmarshal: Item -> Result<T, string>, i: nat, cursor: Cursor)
    requires Finite(responses) && i < |responses|
    ensures Closes(Run(canceled, responses, unmarshal, i, cursor)) == 0
    decreases |responses| - i
  {
    var step := IterationCalls(canceled, responses, unmarshal, i, cursor)
      + [Publish(IterationResult(canceled, responses, unmarshal, i))];
    assert Closes(step) == 0 by {
      IterationProjections(canceled, responses, unmarshal, i, cursor);
    }
    if Ends(canceled, responses, unmarshal, i) {
      assert Run(canceled, responses, unmarshal, i, cursor) == step;
    } else {
      var next := responses[i].lastEvaluatedKey;
      var rest := Run(canceled, responses, unmarshal, i + 1, next);
      assert Run(canceled, responses, unmarshal, i, cursor) == step + rest;
      RunCloses(canceled, responses, unmarshal, i + 1, next);
      ClosesConcat(step, rest);
    }
  }

  /** A run ends with the publication of its last iteration's result. */
  lemma {:induction false} RunLast<Item, T>(canceled: nat -> bool, responses: seq<Response<Item>>,
                                            unmarshal: Item -> Result<T, string>, i: nat, cursor: Cursor)
    requires Finite(responses) && i < |responses|
    ensures var r := Run(canceled, responses, unmarshal, i, cursor);
      && |r| >= 1
      && r[|r| - 1] == Publish(IterationResult(canceled, responses, unmarshal, LastIteration(canceled, responses, unmarshal, i)))
    decreases |responses| - i
  {
    if !Ends(canceled, responses, unmarshal, i) {
      var next := responses[i].lastEvaluatedKey;
      RunLast(canceled, responses, unmarshal, i + 1, next);
      RunLastStep(canceled, responses, unmarshal, i, cursor);
    }
  }

  /** An iteration that does not end the run leaves the last event to the rest of the run. */
  lemma RunLastStep<Item, T>(canceled: nat -> bool, responses: seq<Response<Item>>,
                             unmarshal: Item -> Result<T, string>, i: nat, cursor: Cursor)
    requires Finite(responses) && i < |responses| && !Ends(canceled, responses, unmarshal, i)
    ensures i + 1 < |responses|
    ensures var r := Run(canceled, responses, unmarshal, i, cursor);
      var rest := Run(canceled, responses, unmarshal, i + 1, responses[i].lastEvaluatedKey);
      |rest| >= 1 ==> |r| >= 1 && r[|r| - 1] == rest[|rest| - 1]
  {
    var step := IterationCalls(canceled, responses, unmarshal, i, cursor)
      + [Publish(IterationResult(canceled, responses, unmarshal, i))];
    var rest := Run(canceled, responses, unmarshal, i + 1, responses[i].lastEvaluatedKey);
    LastOfAppend(step, rest);
  }

  /**
   * Every exit path closes the channel exactly once, as the worker's very last
   * action, right after publishing the final result.
   */
  lemma ClosedOnceAtEnd<Item, T>(canceled: nat -> bool, responses: seq<Response<Item>>,
                                 unmarshal: Item -> Result<T, string>, start: Cursor)
    requires Finite(responses)
    ensures var w := Worker(canceled, responses, unmarshal, start);
      && |w| >= 2
      && w[|w| - 1] == Close
      && w[|w| - 2].Publish?
      && Closes(w) == 1
      && forall k :: 0 <= k < |w| - 1 ==> !w[k].Close?
  {
    var w := Worker(canceled, responses, unmarshal, start);
    var run := Run(canceled, responses, unmarshal, 0, start);
    var close: seq<Event<Item, T>> := [Close];
    assert w == run + close;
    assert |run| >= 1 && run[|run| - 1].Publish? by {
      RunLast(canceled, responses, unmarshal, 0, start);
    }
    assert Closes(w) == 1 by {
      RunCloses(canceled, responses, unmarshal, 0, start);
      ClosesConcat(run, close);
      SingletonProjections(close[0]);
    }
    assert forall k :: 0 <= k < |w| - 1 ==> !w[k].Close? by {
      RunCloses(canceled, responses, unmarshal, 0, start);
      NoCloseAnywhere(run);
      assert forall k :: 0 <= k < |run| ==> w[k] == run[k];
    }
  }

  /** The projections of the whole worker are those of its run: the close neither publishes nor queries. */
  lemma WorkerProjections<Item, T>(canceled: nat -> bool, responses: seq<Response<Item>>,
                                   unmarshal: Item -> Result<T, string>, start: Cursor)
    requires Finite(responses)
    ensures Published(Worker(canceled, responses, unmarshal, start)) == ResultsFrom(canceled, responses, unmarshal, 0)
    ensures Queried(Worker(canceled, responses, unmarshal, start)) == CursorsFrom(canceled, responses, unmarshal, 0, start)
  {
    var run := Run(canceled, responses, unmarshal, 0, start);
    var close: seq<Event<Item, T>> := [Close];
    PublishedConcat(run, close);
    QueriedConcat(run, close);
    SingletonProjections(close[0]);
    RunPublished(canceled, responses, unmarshal, 0, start);
    RunQueried(canceled, responses, unmarshal, 0, start);
  }

  /**
   * At most one published result carries an error, and only the last one can:
   * it carries none exactly when the last iteration converted its whole page
   * (whose LastEvaluatedKey is then empty). Its error's sentinel names why the
   * worker stopped.
   */
  lemma ErrorOnlyLast<Item, T>(canceled: nat -> bool, responses: seq<Response<Item>>,
                               unmarshal: Item -> Result<T, string>, start: Cursor)
    requires Finite(responses)
    ensures var p := Published(Worker(canceled, responses, unmarshal, start));
      var last := LastIteration(canceled, responses, unmarshal, 0);
      var r := responses[last];
      && |p| >= 1
      && (forall k :: 0 <= k < |p| - 1 ==> p[k].error.None?)
      && (p[|p| - 1].error.None? <==>
            !canceled(last) && r.Page? && ConvertPage(r.items, unmarshal).failure.None?)
      && (p[|p| - 1].error.None? ==> |r.lastEvaluatedKey| == 0)
      && (p[|p| - 1].error == Some(Bare(ContextCanceled)) <==> canceled(last))
      && (p[|p| - 1].error.Some? && p[|p| - 1].error.value.sentinel == DdbClientError <==>
            !canceled(last) && r.Failed?)
      && (p[|p| - 1].error.Some? && p[|p| - 1].error.value.sentinel == CannotUnmarshal <==>
            !canceled(last) && r.Page? && ConvertPage(r.items, unmarshal).failure.Some?)
  {
    WorkerProjections(canceled, responses, unmarshal, start);
    ResultsShape(canceled, responses, unmarshal, 0);
  }

  /**
   * A cancellation seen at the top of iteration k: the worker publishes a
   * result with no items and ErrQueryContextCanceled, makes no Query call and
   * stops.
   */
  lemma CancelObserved<Item, T>(canceled: nat -> bool, responses: seq<Response<Item>>,
                                unmarshal: Item -> Result<T, string>, k: nat, cursor: Cursor)
    requires Finite(responses) && k < |responses| && canceled(k)
    ensures Run(canceled, responses, unmarshal, k, cursor) == [Publish(QueryResult([], Some(Bare(ContextCanceled))))]
  {
  }

  /**
   * A client failure in iteration k: after the one Query call the worker
   * publishes a result with no items whose error wraps ErrQueryDdbClientError
   * and keeps the cause, and makes no further call.
   */
  lemma ClientFailureAt<Item, T>(canceled: nat -> bool, responses: seq<Response<Item>>,
                                 unmarshal: Item -> Result<T, string>, k: nat, cursor: Cursor)
    requires Finite(responses) && k < |responses| && !canceled(k) && responses[k].Failed?
    ensures Run(canceled, responses, unmarshal, k, cursor)
      == [Query(cursor), Publish(QueryResult([], Some(Wrapped(DdbClientError, responses[k].cause))))]
  {
  }

  /**
   * A first unmarshal failure at item j of iteration k's page: the worker has
   * unmarshaled items 0..j, publishes the conversions of items 0..j-1 in order
   * with an error wrapping ErrQueryCannotUnmarshal and the cause, and stops.
   */
  lemma UnmarshalFailureAt<Item, T>(canceled: nat -> bool, responses: seq<Response<Item>>,
                                    unmarshal: Item -> Result<T, string>, k: nat, cursor: Cursor, j: nat)
    requires Finite(responses) && k < |responses| && !canceled(k) && responses[k].Page?
    requires j < |responses[k].items| && unmarshal(responses[k].items[j]).Err?
    requires forall m :: 0 <= m < j ==> unmarshal(responses[k].items[m]).Ok?
    ensures var raw := responses[k].items;
      var items := ConvertPage(raw, unmarshal).items;
      && |items| == j
      && (forall m :: 0 <= m < j ==> unmarshal(raw[m]) == Ok(items[m]))
      && Run(canceled, responses, unmarshal, k, cursor)
        == [Query(cursor)] + UnmarshalCalls(raw[..j + 1])
           + [Publish(QueryResult(items, Some(Wrapped(CannotUnmarshal, unmarshal(raw[j]).error))))]
  {
    var raw := responses[k].items;
    ConvertFirstFailure(raw, unmarshal, j);
    ConvertPageSpec(raw, unmarshal);
    PageCallsSpec<Item, T>(raw, unmarshal);
  }

  /**
   * A fully converted page in iteration k: the worker unmarshals every raw
   * item, publishes an error-free result whose items are their conversions
   * one-for-one and in order, and then goes on with the page's
   * LastEvaluatedKey as cursor, stopping there when that key is empty.
   */
  lemma FullPage<Item, T>(canceled: nat -> bool, responses: seq<Response<Item>>,
                          unmarshal: Item -> Result<T, string>, k: nat, cursor: Cursor)
    requires Finite(responses) && k < |responses| && !canceled(k) && responses[k].Page?
    requires forall m :: 0 <= m < |responses[k].items| ==> unmarshal(responses[k].items[m]).Ok?
    ensures var raw := responses[k].items;
      var key := responses[k].lastEvaluatedKey;
      var items := ConvertPage(raw, unmarshal).items;
      && |items| == |raw|
      && (forall m :: 0 <= m < |raw| ==> unmarshal(raw[m]) == Ok(items[m]))
      && (|key| != 0 ==> k + 1 < |responses|)
      && Run(canceled, responses, unmarshal, k, cursor)
        == [Query(cursor)] + UnmarshalCalls(raw) + [Publish(QueryResult(items, None))]
           + if |key| == 0 then [] else Run(canceled, responses, unmarshal, k + 1, key)
  {
    var raw := responses[k].items;
    ConvertAllOk(raw, unmarshal);
    ConvertPageSpec(raw, unmarshal);
    PageCallsSpec<Item, T>(raw, unmarshal);
    assert raw[..|raw|] == raw;
  }

  /** All items of the pages, in fetch order; a failed response contributes none. */
  function RawItems<Item>(responses: seq<Response<Item>>): seq<Item>
  {
    if responses == [] then []
    else (if responses[0].Page? then responses[0].items else []) + RawItems(responses[1..])
  }

  /** All items of the results, in publication order. */
  function Flatten<T>(results: seq<QueryResult<T>>): seq<T>
  {
    if results == [] then [] else results[0].items + Flatten(results[1..])
  }

  /** Converting two pages one after the other is converting their concatenation. */
  lemma {:induction false} ConvertAppend<Item, T>(a: seq<Item>, b: seq<Item>, unmarshal: Item -> Result<T, string>)
    requires ConvertPage(a, unmarshal).failure.None?
    ensures ConvertPage(a + b, unmarshal)
      == Conversion(ConvertPage(a, unmarshal).items + ConvertPage(b, unmarshal).items, ConvertPage(b, unmarshal).failure)
  {
    if a == [] {
      assert a + b == b;
    } else {
      assert (a + b)[0] == a[0];
      assert (a + b)[1..] == a[1..] + b;
      ConvertAppend(a[1..], b, unmarshal);
    }
  }

  /**
   * No cancellation from iteration i on, every response a page whose items
   * all convert, and an empty LastEvaluatedKey only on the last page.
   */
  predicate Uneventful<Item, T>(canceled: nat -> bool, responses: seq<Response<Item>>,
                                unmarshal: Item -> Result<T, string>, i: nat)
  {
    forall k :: i <= k < |responses| ==>
      && !canceled(k)
      && responses[k].Page?
      && (forall m :: 0 <= m < |responses[k].items| ==> unmarshal(responses[k].items[m]).Ok?)
      && (k < |responses| - 1 ==> |responses[k].lastEvaluatedKey| != 0)
  }

  lemma {:induction false} ExhaustFrom<Item, T>(canceled: nat -> bool, responses: seq<Response<Item>>,
                                                unmarshal: Item -> Result<T, string>, i: nat, cursor: Cursor)
    requires Finite(responses) && i < |responses| && Uneventful(canceled, responses, unmarshal, i)
    ensures var r := ResultsFrom(canceled, responses, unmarshal, i);
      var all := ConvertPage(RawItems(responses[i..]), unmarshal);
      && |r| == |responses| - i
      && (forall k :: 0 <= k < |r| ==> r[k] == QueryResult(ConvertPage(responses[i + k].items, unmarshal).items, None))
      && all.failure.None?
      && Flatten(r) == all.items
    decreases |responses| - i
  {
    var raw := responses[i].items;
    var key := responses[i].lastEvaluatedKey;
    ConvertAllOk(raw, unmarshal);
    var c := ConvertPage(raw, unmarshal);
    var result := QueryResult(c.items, None);
    assert IterationResult(canceled, responses, unmarshal, i) == result;
    var r := ResultsFrom(canceled, responses, unmarshal, i);
    assert responses[i..][1..] == responses[i + 1..];
    assert RawItems(responses[i..]) == raw + RawItems(responses[i + 1..]);
    if i == |responses| - 1 {
      assert r == [result];
      assert RawItems(responses[i + 1..]) == [];
      assert raw + [] == raw;
      assert Flatten(r) == c.items + Flatten(r[1..]);
      assert r[1..] == [];
    } else {
      var r' := ResultsFrom(canceled, responses, unmarshal, i + 1);
      assert r == [result] + r' by {
        assert !Ends(canceled, responses, unmarshal, i);
      }
      ExhaustFrom(canceled, responses, unmarshal, i + 1, key);
      ConvertAppend(raw, RawItems(responses[i + 1..]), unmarshal);
      assert Flatten(r) == c.items + Flatten(r');
      forall k | 0 < k < |r|
        ensures r[k] == QueryResult(ConvertPage(responses[i + k].items, unmarshal).items, None)
      {
        assert r[k] == r'[k - 1];
      }
    }
  }

  lemma {:induction false} ExhaustCursors<Item, T>(canceled: nat -> bool, responses: seq<Response<Item>>,
                                                   unmarshal: Item -> Result<T, string>, i: nat, cursor: Cursor)
    requires Finite(responses) && i < |responses| && Uneventful(canceled, responses, unmarshal, i)
    ensures var q := CursorsFrom(canceled, responses, unmarshal, i, cursor);
      && |q| == |responses| - i && q[0] == cursor
      && (forall k :: 0 < k < |q| ==> q[k] == responses[i + k - 1].lastEvaluatedKey)
    decreases |responses| - i
  {
    var q := CursorsFrom(canceled, responses, unmarshal, i, cursor);
    ConvertAllOk(responses[i].items, unmarshal);
    if i == |responses| - 1 {
      assert q == [cursor];
    } else {
      var key := responses[i].lastEvaluatedKey;
      var q' := CursorsFrom(canceled, responses, unmarshal, i + 1, key);
      assert q == [cursor] + q' by {
        assert !Ends(canceled, responses, unmarshal, i);
      }
      ExhaustCursors(canceled, responses, unmarshal, i + 1, key);
      forall k | 1 < k < |q|
        ensures q[k] == responses[i + k - 1].lastEvaluatedKey
      {
        assert q[k] == q'[k - 1];
      }
    }
  }

  /**
   * N pages, only the last with an empty LastEvaluatedKey, no cancellation and
   * no failure: exactly N error-free results, the k-th holding the k-th page's
   * conversions; together their items are all pages' items converted in fetch
   * order; and the N queries went out with the start key and then each page's
   * LastEvaluatedKey.
   */
  lemma Exhaustion<Item, T>(canceled: nat -> bool, responses: seq<Response<Item>>,
                            unmarshal: Item -> Result<T, string>, start: Cursor)
    requires Finite(responses) && Uneventful(canceled, responses, unmarshal, 0)
    ensures var w := Worker(canceled, responses, unmarshal, start);
      var p := Published(w);
      var q := Queried(w);
      var all := ConvertPage(RawItems(responses), unmarshal);
      && |p| == |responses|
      && (forall k :: 0 <= k < |p| ==> p[k] == QueryResult(ConvertPage(responses[k].items, unmarshal).items, None))
      && all.failure.None?
      && Flatten(p) == all.items
      && |q| == |responses| && q[0] == start
      && (forall k :: 0 < k < |q| ==> q[k] == responses[k - 1].lastEvaluatedKey)
  {
    WorkerProjections(canceled, responses, unmarshal, start);
    ExhaustFrom(canceled, responses, unmarshal, 0, start);
    ExhaustCursors(canceled, responses, unmarshal, 0, start);
    assert responses[0..] == responses;
  }
}
