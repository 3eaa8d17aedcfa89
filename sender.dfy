/**
 * sender.py: the batch send. One attempt per recipient, strictly in order:
 * the send, then the pacing pause, then one log row, then the result triple.
 * The transport is an oracle: `server(k)` is what the k-th `send_message` of
 * the batch does (returns, raises RPCError, or raises something else).
 */
module Sender {
  import opened Wrappers
  import opened Utils

  const DefaultDelay: real := 1.0
  const DefaultLogPath := "send_log.csv"
  const MissingCodeCallback := "code_callback must be provided to enter Telegram login code."

  /** The `status` column of a log row. */
  const StatusSuccess := "success"
  const StatusFailed := "failed"

  /** What one `client.send_message(recipient, message)` does. */
  datatype SendOutcome =
    | Delivered               // returns normally
    | RpcError(text: string)  // raises telethon's RPCError; `text` is `str(exc)`
    | OtherError(text: string) // raises any other exception, which nothing in the batch catches

  /** The end of `_send_single`: a (status, error_message) pair, or an exception passing through. */
  datatype Single = Completed(status: string, error: string) | Raised(text: string)

  /** One entry of the returned list: (recipient, status, error_message). */
  datatype Triple = Triple(recipient: string, status: string, error: string)

  /** What the batch does to the outside world, in order. */
  datatype Event =
    | Attempt(recipient: string, message: string) // one `send_message` call
    | Pause(seconds: real)                         // one `asyncio.sleep(delay)`
    | Logged(row: Row)                             // one `append_log` call

  /** What `_send_batch` ends with: the result list, or the exception that stopped it. */
  datatype BatchOutcome = Finished(results: seq<Triple>) | Aborted(error: string)

  /**
   * The try/except of `_send_single`: a returning send is ("success", ""), an
   * RPCError is ("failed", str(exc)), anything else propagates.
   */
  function SingleResult(answer: SendOutcome): (r: Single)
    ensures r.Raised? <==> answer.OtherError?
    ensures r.Completed? ==> (r.status == StatusSuccess <==> answer.Delivered?)
    ensures r.Completed? ==> r.status in {StatusSuccess, StatusFailed}
    ensures answer.Delivered? ==> r == Completed(StatusSuccess, "")
    ensures !answer.Delivered? ==> r.Raised? || r == Completed(StatusFailed, answer.text)
  {
    match answer
    case Delivered => Completed(StatusSuccess, "")
    case RpcError(text) => Completed(StatusFailed, text)
    case OtherError(text) => Raised(text)
  }

  /**
   * `_send_single(client, recipient, message, delay)`: one send, then the
   * pause unless the send raised something other than RPCError.
   */
  method SendSingle(recipient: string, message: string, delay: real, answer: SendOutcome)
    returns (r: Single, ghost events: seq<Event>)
    ensures r == SingleResult(answer)
    ensures events == if r.Raised? then [Attempt(recipient, message)] else [Attempt(recipient, message), Pause(delay)]
  {
    events := [Attempt(recipient, message)];
    var status, errorMessage;
    match answer {
      case Delivered =>
        status := StatusSuccess;
        errorMessage := "";
      case RpcError(text) =>
        status := StatusFailed;
        errorMessage := text;
      case OtherError(text) =>
        return Raised(text), events;
    }
    events := events + [Pause(delay)];
    r := Completed(status, errorMessage);
  }

  // ---------------------------------------------------------------------------
  // The batch, specified position by position.
  // ---------------------------------------------------------------------------

  /** How many of the first `n` sends complete before one raises something other than RPCError. */
  function FirstRaise(server: nat -> SendOutcome, n: nat): (c: nat)
    ensures c <= n
    ensures forall j :: 0 <= j < c ==> !server(j).OtherError?
    ensures c < n ==> server(c).OtherError?
  {
    if n == 0 then 0
    else
      var c := FirstRaise(server, n - 1);
      if c < n - 1 then c
      else if server(n - 1).OtherError? then n - 1
      else n
  }

  predicate NoneRaised(server: nat -> SendOutcome, n: nat)
  {
    forall j :: 0 <= j < n ==> !server(j).OtherError?
  }

  function TripleAt(recipients: seq<string>, server: nat -> SendOutcome, k: nat): Triple
    requires k < |recipients| && !server(k).OtherError?
  {
    var r := SingleResult(server(k));
    Triple(recipients[k], r.status, r.error)
  }

  function RowOf(timestamp: string, t: Triple): Row
  {
    LogRow(timestamp, t.recipient, t.status, t.error)
  }

  /** The result list after the first `n` recipients. */
  function Results(recipients: seq<string>, server: nat -> SendOutcome, n: nat): seq<Triple>
    requires n <= |recipients| && NoneRaised(server, n)
  {
    if n == 0 then [] else Results(recipients, server, n - 1) + [TripleAt(recipients, server, n - 1)]
  }

  /** The log rows of a result list; the k-th `append_log` of the batch is stamped `clock(k)`. */
  function LogRows(results: seq<Triple>, clock: nat -> string): seq<Row>
  {
    if results == [] then []
    else LogRows(results[..|results| - 1], clock) + [RowOf(clock(|results| - 1), results[|results| - 1])]
  }

  /** The events of the first `n` recipients. */
  function Timeline(recipients: seq<string>, message: string, delay: real, server: nat -> SendOutcome,
                    clock: nat -> string, n: nat): seq<Event>
    requires n <= |recipients| && NoneRaised(server, n)
  {
    if n == 0 then []
    else
      Timeline(recipients, message, delay, server, clock, n - 1)
      + [Attempt(recipients[n - 1], message), Pause(delay), Logged(RowOf(clock(n - 1), TripleAt(recipients, server, n - 1)))]
  }

  /** What `_send_batch` returns or raises. */
  function BatchResult(recipients: seq<string>, server: nat -> SendOutcome): BatchOutcome
  {
    var c := FirstRaise(server, |recipients|);
    if c == |recipients| then Finished(Results(recipients, server, c)) else Aborted(server(c).text)
  }

  /** Everything the batch does, up to and including the attempt that raised, if one did. */
  function BatchTimeline(recipients: seq<string>, message: string, delay: real, server: nat -> SendOutcome,
                         clock: nat -> string): seq<Event>
  {
    var c := FirstRaise(server, |recipients|);
    Timeline(recipients, message, delay, server, clock, c)
    + (if c < |recipients| then [Attempt(recipients[c], message)] else [])
  }

  /** The rows the batch appends to the log: one per recipient whose attempt completed. */
  function BatchRows(recipients: seq<string>, server: nat -> SendOutcome, clock: nat -> string): seq<Row>
  {
    LogRows(Results(recipients, server, FirstRaise(server, |recipients|)), clock)
  }

  /**
   * `_send_batch(...)` after the client has logged in: for each recipient,
   * `_send_single`, then `append_log`, then the result triple.
   */
  method SendBatch(store: LogStore, logPath: string, recipients: seq<string>, message: string, delay: real,
                   server: nat -> SendOutcome, clock: nat -> string)
    returns (outcome: BatchOutcome, ghost timeline: seq<Event>)
    modifies store
    ensures outcome == BatchResult(recipients, server)
    ensures timeline == BatchTimeline(recipients, message, delay, server, clock)
    ensures store.files == AppendAll(old(store.files), logPath, BatchRows(recipients, server, clock))
  {
    var results: seq<Triple> := [];
    timeline := [];
    var i := 0;
    assert LogRows(results, clock) == [];
    while i < |recipients|
      invariant i <= |recipients| && NoneRaised(server, i)
      invariant results == Results(recipients, server, i)
      invariant timeline == Timeline(recipients, message, delay, server, clock, i)
      invariant store.files == AppendAll(old(store.files), logPath, LogRows(results, clock))
    {
      var single, events := SendAndLog(store, logPath, recipients, message, delay, server, clock, i, old(store.files));
      if single.Raised? {
        FirstRaiseAt(server, |recipients|, i);
        return Aborted(single.text), timeline + events;
      }
      timeline := timeline + events;
      results := results + [Triple(recipients[i], single.status, single.error)];
      i := i + 1;
    }
    FirstRaiseAt(server, |recipients|, i);
    outcome := Finished(results);
  }

  /**
   * One iteration of `_send_batch`'s loop: `_send_single` for the `i`-th
   * recipient and, when it completes, `append_log` of its result.
   */
  method SendAndLog(store: LogStore, logPath: string, recipients: seq<string>, message: string, delay: real,
                    server: nat -> SendOutcome, clock: nat -> string, i: nat, ghost start: map<string, seq<Row>>)
    returns (single: Single, ghost events: seq<Event>)
    requires i < |recipients| && NoneRaised(server, i)
    requires store.files == AppendAll(start, logPath, LogRows(Results(recipients, server, i), clock))
    modifies store
    ensures single == SingleResult(server(i))
    ensures single.Raised? ==> events == [Attempt(recipients[i], message)] && store.files == old(store.files)
    ensures single.Completed? ==>
      && NoneRaised(server, i + 1)
      && Results(recipients, server, i + 1)
         == Results(recipients, server, i) + [Triple(recipients[i], single.status, single.error)]
      && Timeline(recipients, message, delay, server, clock, i + 1)
         == Timeline(recipients, message, delay, server, clock, i) + events
      && store.files == AppendAll(start, logPath, LogRows(Results(recipients, server, i + 1), clock))
  {
    single, events := SendSingle(recipients[i], message, delay, server(i));
    if single.Raised? {
      return;
    }
    assert NoneRaised(server, i + 1);
    ghost var row := RowOf(clock(i), TripleAt(recipients, server, i));
    assert LogRow(clock(i), recipients[i], single.status, single.error) == row;
    ghost var before := store.files;
    store.AppendLog(logPath, clock(i), recipients[i], single.status, single.error);
    LogStep(before, store.files, logPath, start, recipients, server, clock, i);
    events := events + [Logged(row)];
  }

  /** The first raising send is the first one, among those made, whose outcome is OtherError. */
  lemma FirstRaiseAt(server: nat -> SendOutcome, n: nat, i: nat)
    requires i <= n && NoneRaised(server, i) && (i < n ==> server(i).OtherError?)
    ensures FirstRaise(server, n) == i
  {
  }

  /** One `append_log` extends the batch's rows in the log file by the row of one more result. */
  lemma LogStep(before: map<string, seq<Row>>, after: map<string, seq<Row>>, logPath: string,
                start: map<string, seq<Row>>, recipients: seq<string>, server: nat -> SendOutcome,
                clock: nat -> string, i: nat)
    requires i < |recipients| && NoneRaised(server, i + 1)
    requires before == AppendAll(start, logPath, LogRows(Results(recipients, server, i), clock))
    requires after == before[logPath := AppendRow(Lookup(before, logPath), RowOf(clock(i), TripleAt(recipients, server, i)))]
    ensures after == AppendAll(start, logPath, LogRows(Results(recipients, server, i + 1), clock))
  {
    var results := Results(recipients, server, i);
    var t := TripleAt(recipients, server, i);
    ResultsAt(recipients, server, i);
    assert Results(recipients, server, i + 1) == results + [t];
    LogRowsSnoc(results, t, clock);
    AppendAllSnoc(start, logPath, LogRows(results, clock), RowOf(clock(i), t));
  }

  lemma LogRowsSnoc(results: seq<Triple>, t: Triple, clock: nat -> string)
    ensures LogRows(results + [t], clock) == LogRows(results, clock) + [RowOf(clock(|results|), t)]
  {
    assert (results + [t])[..|results|] == results;
  }

  /**
   * `send_messages(...)`: no code callback is a ValueError before anything is
   * sent or logged; otherwise the batch's results, or the text of the
   * exception that stopped it. The delay, the log path and the callback
   * have the defaults of sender.py.
   */
  method SendMessages(store: LogStore, server: nat -> SendOutcome, clock: nat -> string,
                      recipients: seq<string>, message: string, delay: real := DefaultDelay,
                      logPath: string := DefaultLogPath, codeCallback: Option<() -> string> := None)
    returns (r: Result<seq<Triple>, string>, ghost timeline: seq<Event>)
    modifies store
    ensures codeCallback.None? ==> r == Failure(MissingCodeCallback) && timeline == [] && store.files == old(store.files)
    ensures codeCallback.Some? ==>
      && r == (match BatchResult(recipients, server)
               case Finished(results) => Success(results)
               case Aborted(error) => Failure(error))
      && timeline == BatchTimeline(recipients, message, delay, server, clock)
      && store.files == AppendAll(old(store.files), logPath, BatchRows(recipients, server, clock))
  {
    if codeCallback.None? {
      return Failure(MissingCodeCallback), [];
    }
    var outcome;
    outcome, timeline := SendBatch(store, logPath, recipients, message, delay, server, clock);
    match outcome {
      case Finished(results) => r := Success(results);
      case Aborted(error) => r := Failure(error);
    }
  }

  // ---------------------------------------------------------------------------
  // What the specification says, position by position.
  // ---------------------------------------------------------------------------

  /** One triple per recipient, in input order, carrying that recipient's status and error text. */
  lemma {:induction false} ResultsAt(recipients: seq<string>, server: nat -> SendOutcome, n: nat)
    requires n <= |recipients| && NoneRaised(server, n)
    ensures |Results(recipients, server, n)| == n
    ensures forall k :: 0 <= k < n ==>
      Results(recipients, server, n)[k] == Triple(recipients[k], SingleResult(server(k)).status, SingleResult(server(k)).error)
  {
    if n > 0 {
      ResultsAt(recipients, server, n - 1);
    }
  }

  /** The k-th log row of the batch records the k-th result triple, stamped by the k-th clock reading. */
  lemma {:induction false} LogRowsAt(results: seq<Triple>, clock: nat -> string)
    ensures |LogRows(results, clock)| == |results|
    ensures forall k :: 0 <= k < |results| ==> LogRows(results, clock)[k] == RowOf(clock(k), results[k])
  {
    if results != [] {
      LogRowsAt(results[..|results| - 1], clock);
    }
  }

  /**
   * Recipient k is attempted at event 3k, paused after at 3k+1 and logged at
   * 3k+2, so its row is written before recipient k+1 is attempted.
   */
  lemma {:induction false} TimelineAt(recipients: seq<string>, message: string, delay: real,
                                      server: nat -> SendOutcome, clock: nat -> string, n: nat)
    requires n <= |recipients| && NoneRaised(server, n)
    ensures |Timeline(recipients, message, delay, server, clock, n)| == 3 * n
    ensures forall k :: 0 <= k < n ==>
      && Timeline(recipients, message, delay, server, clock, n)[3 * k] == Attempt(recipients[k], message)
      && Timeline(recipients, message, delay, server, clock, n)[3 * k + 1] == Pause(delay)
      && Timeline(recipients, message, delay, server, clock, n)[3 * k + 2] == Logged(RowOf(clock(k), TripleAt(recipients, server, k)))
  {
    if n > 0 {
      var prev := Timeline(recipients, message, delay, server, clock, n - 1);
      var step := [Attempt(recipients[n - 1], message), Pause(delay),
                   Logged(RowOf(clock(n - 1), TripleAt(recipients, server, n - 1)))];
      var all := Timeline(recipients, message, delay, server, clock, n);
      TimelineAt(recipients, message, delay, server, clock, n - 1);
      assert all == prev + step;
      forall k | 0 <= k < n
        ensures all[3 * k] == Attempt(recipients[k], message)
        ensures all[3 * k + 1] == Pause(delay)
        ensures all[3 * k + 2] == Logged(RowOf(clock(k), TripleAt(recipients, server, k)))
      {
        if k < n - 1 {
          assert all[3 * k] == prev[3 * k] && all[3 * k + 1] == prev[3 * k + 1] && all[3 * k + 2] == prev[3 * k + 2];
        } else {
          assert all[3 * k] == step[0] && all[3 * k + 1] == step[1] && all[3 * k + 2] == step[2];
        }
      }
    }
  }

  /** The recipients of the Attempt events, in order. */
  function Attempted(events: seq<Event>): seq<string>
  {
    if events == [] then []
    else Attempted(events[..|events| - 1])
         + (if events[|events| - 1].Attempt? then [events[|events| - 1].recipient] else [])
  }

  /** The number of Pause events. */
  function Pauses(events: seq<Event>): nat
  {
    if events == [] then 0
    else Pauses(events[..|events| - 1]) + (if events[|events| - 1].Pause? then 1 else 0)
  }

  lemma PrefixSnoc<T>(s: seq<T>, c: nat)
    requires c < |s|
    ensures s[..c] + [s[c]] == s[..c + 1]
  {
  }

  lemma AttemptedOne(e: Event)
    ensures Attempted([e]) == (if e.Attempt? then [e.recipient] else [])
    ensures Pauses([e]) == (if e.Pause? then 1 else 0)
  {
    assert [e][..0] == [];
  }

  lemma {:induction false} AttemptedAppend(a: seq<Event>, b: seq<Event>)
    ensures Attempted(a + b) == Attempted(a) + Attempted(b)
    ensures Pauses(a + b) == Pauses(a) + Pauses(b)
  {
    if b == [] {
      assert a + b == a;
    } else {
      var init := b[..|b| - 1];
      AttemptedAppend(a, init);
      assert (a + b)[..|a + b| - 1] == a + init;
    }
  }

  /**
   * No retry: every recipient up to the one that raised is attempted exactly
   * once, in input order, and a pause follows every attempt that completed.
   */
  lemma BatchAttempts(recipients: seq<string>, message: string, delay: real, server: nat -> SendOutcome,
                      clock: nat -> string)
    ensures var c := FirstRaise(server, |recipients|);
      && Attempted(BatchTimeline(recipients, message, delay, server, clock))
         == recipients[..if c < |recipients| then c + 1 else c]
      && Pauses(BatchTimeline(recipients, message, delay, server, clock)) == c
  {
    var c := FirstRaise(server, |recipients|);
    var done := Timeline(recipients, message, delay, server, clock, c);
    var tail: seq<Event> := if c < |recipients| then [Attempt(recipients[c], message)] else [];
    var attempted := recipients[..if c < |recipients| then c + 1 else c];
    assert BatchTimeline(recipients, message, delay, server, clock) == done + tail;
    assert Attempted(done) == recipients[..c] && Pauses(done) == c by {
      TimelineCounts(recipients, message, delay, server, clock, c);
    }
    assert Attempted(done) + Attempted(tail) == attempted && Pauses(tail) == 0 by {
      if c < |recipients| {
        AttemptedOne(Attempt(recipients[c], message));
        PrefixSnoc(recipients, c);
      } else {
        assert tail == [];
      }
    }
    AttemptedAppend(done, tail);
  }

  /** One completed recipient contributes one attempt and one pause. */
  lemma StepCounts(recipient: string, message: string, delay: real, row: Row)
    ensures Attempted([Attempt(recipient, message), Pause(delay), Logged(row)]) == [recipient]
    ensures Pauses([Attempt(recipient, message), Pause(delay), Logged(row)]) == 1
  {
    var step := [Attempt(recipient, message), Pause(delay), Logged(row)];
    assert step == [step[0]] + [step[1]] + [step[2]];
    AttemptedAppend([step[0]] + [step[1]], [step[2]]);
    AttemptedAppend([step[0]], [step[1]]);
    AttemptedOne(step[0]);
    AttemptedOne(step[1]);
    AttemptedOne(step[2]);
  }

  lemma {:induction false} TimelineCounts(recipients: seq<string>, message: string, delay: real,
                                          server: nat -> SendOutcome, clock: nat -> string, n: nat)
    requires n <= |recipients| && NoneRaised(server, n)
    ensures Attempted(Timeline(recipients, message, delay, server, clock, n)) == recipients[..n]
    ensures Pauses(Timeline(recipients, message, delay, server, clock, n)) == n
  {
    if n > 0 {
      var prev := Timeline(recipients, message, delay, server, clock, n - 1);
      var row := RowOf(clock(n - 1), TripleAt(recipients, server, n - 1));
      var step := [Attempt(recipients[n - 1], message), Pause(delay), Logged(row)];
      assert Timeline(recipients, message, delay, server, clock, n) == prev + step;
      TimelineCounts(recipients, message, delay, server, clock, n - 1);
      AttemptedAppend(prev, step);
      StepCounts(recipients[n - 1], message, delay, row);
      PrefixSnoc(recipients, n - 1);
    }
  }
}
