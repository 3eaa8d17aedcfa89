/**
 * app.py: the decisions behind the window's buttons. Widgets, message boxes
 * and dialogs are not modelled; each handler returns what it would show or
 * do as an `Action`, and the recipient list loaded from a file is the one
 * field the handlers update.
 */
module App {
  import opened Wrappers
  import opened PyText
  import opened Utils
  import opened Scheduler
  import opened Sender

  // ---------------------------------------------------------------------------
  // _collect_recipients: list(dict.fromkeys(loaded + pasted))
  // ---------------------------------------------------------------------------

  predicate NoDuplicates(xs: seq<string>)
  {
    forall i, j :: 0 <= i < j < |xs| ==> xs[i] != xs[j]
  }

  /** Where `x` first occurs in `xs`. */
  function FirstIndex(xs: seq<string>, x: string): (i: nat)
    requires x in xs
    ensures i < |xs| && xs[i] == x && x !in xs[..i]
  {
    if xs[0] == x then 0
    else
      assert x in xs[1..] by {
        var k :| 0 <= k < |xs| && xs[k] == x;
        assert xs[1..][k - 1] == x;
      }
      var j := FirstIndex(xs[1..], x);
      assert xs[..j + 1] == [xs[0]] + xs[1..][..j];
      j + 1
  }

  /**
   * `list(dict.fromkeys(xs))`: each element once, kept where it first occurs.
   * Nothing is added and nothing is lost.
   */
  function Dedupe(xs: seq<string>): (r: seq<string>)
    ensures NoDuplicates(r)
    ensures forall x :: x in r <==> x in xs
    ensures |r| <= |xs|
  {
    if xs == [] then []
    else
      var init := xs[..|xs| - 1];
      var x := xs[|xs| - 1];
      var r := Dedupe(init);
      assert forall y :: y in xs <==> y in init || y == x by {
        assert xs == init + [x];
      }
      if x in r then r else r + [x]
  }

  /** Any index holding the first occurrence of `x` is `FirstIndex`. */
  lemma FirstIndexUnique(xs: seq<string>, x: string, i: nat)
    requires i < |xs| && xs[i] == x && x !in xs[..i]
    ensures FirstIndex(xs, x) == i
  {
  }

  /** Appending an element does not move the first occurrence of anything already present. */
  lemma FirstIndexSnoc(xs: seq<string>, y: string, x: string)
    requires x in xs
    ensures FirstIndex(xs + [y], x) == FirstIndex(xs, x)
  {
    var i := FirstIndex(xs, x);
    assert (xs + [y])[..i] == xs[..i];
    FirstIndexUnique(xs + [y], x, i);
  }

  /** The de-duplicated list is ordered by first occurrence in the input. */
  lemma {:induction false} DedupeOrder(xs: seq<string>)
    ensures forall i, j :: 0 <= i < j < |Dedupe(xs)| ==>
      FirstIndex(xs, Dedupe(xs)[i]) < FirstIndex(xs, Dedupe(xs)[j])
  {
    if xs != [] {
      var n := |xs|;
      var init := xs[..n - 1];
      var x := xs[n - 1];
      var r := Dedupe(init);
      assert xs == init + [x];
      DedupeOrder(init);
      forall e | e in r
        ensures FirstIndex(xs, e) == FirstIndex(init, e) < n - 1
      {
        FirstIndexSnoc(init, x, e);
      }
      if x !in r {
        assert x !in init;
        assert xs[..n - 1] == init;
        FirstIndexUnique(xs, x, n - 1);
        assert Dedupe(xs) == r + [x];
        forall i, j | 0 <= i < j < |r + [x]|
          ensures FirstIndex(xs, (r + [x])[i]) < FirstIndex(xs, (r + [x])[j])
        {
          assert (r + [x])[i] == r[i];
          assert r[i] in r;
          if j < |r| {
            assert (r + [x])[j] == r[j];
            assert r[j] in r;
          }
        }
      } else {
        assert Dedupe(xs) == r;
        forall i, j | 0 <= i < j < |r|
          ensures FirstIndex(xs, r[i]) < FirstIndex(xs, r[j])
        {
          assert r[i] in r && r[j] in r;
        }
      }
    }
  }

  /**
   * Merging keeps the loaded ids first, in their own de-duplicated order; all
   * that follows them comes from the appended list and was not loaded.
   */
  lemma {:induction false} DedupeAppend(a: seq<string>, b: seq<string>)
    ensures |Dedupe(a)| <= |Dedupe(a + b)|
    ensures Dedupe(a + b)[..|Dedupe(a)|] == Dedupe(a)
    ensures forall k :: |Dedupe(a)| <= k < |Dedupe(a + b)| ==> Dedupe(a + b)[k] in b && Dedupe(a + b)[k] !in a
  {
    if b == [] {
      assert a + b == a;
    } else {
      var init := b[..|b| - 1];
      var y := b[|b| - 1];
      var da := Dedupe(a);
      var prev := Dedupe(a + init);
      DedupeAppend(a, init);
      assert Dedupe(a + b) == if y in prev then prev else prev + [y] by {
        assert a + b == (a + init) + [y];
        DedupeSnoc(a + init, y);
      }
      assert y !in prev ==> y in b && y !in a;
      assert forall z :: z in init ==> z in b;
      assert y !in prev ==> (prev + [y])[..|da|] == prev[..|da|];
    }
  }

  lemma DedupeSnoc(xs: seq<string>, y: string)
    ensures Dedupe(xs + [y]) == if y in Dedupe(xs) then Dedupe(xs) else Dedupe(xs) + [y]
  {
    assert (xs + [y])[..|xs|] == xs;
  }

  /**
   * `_collect_recipients()`: the loaded ids followed by the pasted ones, each
   * id once, in first-seen order.
   */
  function Collect(loaded: seq<string>, pasted: string): (r: seq<string>)
    ensures NoDuplicates(r)
    ensures forall x :: x in r <==> x in loaded || x in ParseChatIds(pasted)
    ensures |r| <= |loaded| + |ParseChatIds(pasted)|
  {
    Dedupe(loaded + ParseChatIds(pasted))
  }

  // ---------------------------------------------------------------------------
  // _validate
  // ---------------------------------------------------------------------------

  /** The warning boxes the handlers can show instead of acting. */
  datatype Warning =
    | NoRecipients                   // "Please load or paste at least one chat_id."
    | TooManyRecipients(count: nat)  // "Maximum of 50 recipients allowed (current: {count})."
    | EmptyMessage                   // "Please enter a message to send."
    | NoTestChatId                   // "Please enter your chat_id for testing."
    | BadScheduleTime(error: TimeError) // "Invalid time format: {exc}"

  /**
   * `_validate(recipients, message)`: None when the send may go ahead,
   * otherwise the first failing check: no recipients, then more than 50, then
   * a whitespace-only message.
   */
  function Validate(recipients: seq<string>, message: string): (r: Option<Warning>)
    ensures r == None <==> 1 <= |recipients| <= DefaultRecipientLimit && !AllSpace(message)
    ensures r == Some(NoRecipients) <==> recipients == []
    ensures r == Some(TooManyRecipients(|recipients|)) <==> |recipients| > DefaultRecipientLimit
    ensures r == Some(EmptyMessage) <==> 1 <= |recipients| <= DefaultRecipientLimit && AllSpace(message)
  {
    if recipients == [] then Some(NoRecipients)
    else
      var (withinLimit, count) := EnsureRecipientLimit(recipients, DefaultRecipientLimit);
      if !withinLimit then Some(TooManyRecipients(count))
      else if Strip(message) == [] then Some(EmptyMessage)
      else None
  }

  // ---------------------------------------------------------------------------
  // _send: the tally shown after a batch
  // ---------------------------------------------------------------------------

  /** `sum(1 for _, status, _ in results if status == "success")` */
  function CountSuccess(results: seq<Triple>): (n: nat)
    ensures n <= |results|
  {
    if results == [] then 0
    else CountSuccess(results[..|results| - 1]) + (if results[|results| - 1].status == StatusSuccess then 1 else 0)
  }

  /** What `_send` shows: the exception's text, or how many were sent and how many failed. */
  datatype Report = SendFailed(text: string) | Done(sent: nat, failed: nat)

  function Summarize(outcome: Result<seq<Triple>, string>): (r: Report)
    ensures outcome.Failure? ==> r == SendFailed(outcome.error)
    ensures outcome.Success? ==> r.Done? && r.sent + r.failed == |outcome.value|
  {
    match outcome
    case Failure(text) => SendFailed(text)
    case Success(results) =>
      var success := CountSuccess(results);
      Done(success, |results| - success)
  }

  /** How many of the first `n` sends return normally. */
  function Deliveries(server: nat -> SendOutcome, n: nat): (d: nat)
    ensures d <= n
  {
    if n == 0 then 0 else Deliveries(server, n - 1) + (if server(n - 1).Delivered? then 1 else 0)
  }

  /** The "Sent" count of a batch's results is the number of sends that returned normally. */
  lemma {:induction false} CountSuccessResults(recipients: seq<string>, server: nat -> SendOutcome, n: nat)
    requires n <= |recipients| && NoneRaised(server, n)
    ensures CountSuccess(Results(recipients, server, n)) == Deliveries(server, n)
  {
    if n > 0 {
      var prev := Results(recipients, server, n - 1);
      var t := TripleAt(recipients, server, n - 1);
      var bump := if server(n - 1).Delivered? then 1 else 0;
      assert Results(recipients, server, n) == prev + [t];
      assert CountSuccess(prev + [t]) == CountSuccess(prev) + bump by {
        CountSuccessSnoc(prev, t);
      }
      CountSuccessResults(recipients, server, n - 1);
    }
  }

  lemma CountSuccessSnoc(results: seq<Triple>, t: Triple)
    ensures CountSuccess(results + [t]) == CountSuccess(results) + (if t.status == StatusSuccess then 1 else 0)
  {
    assert (results + [t])[..|results|] == results;
  }

  /**
   * After a batch with no aborting exception, the report says how many sends
   * returned and counts every RPCError as a failure.
   */
  lemma BatchReport(recipients: seq<string>, server: nat -> SendOutcome)
    requires FirstRaise(server, |recipients|) == |recipients|
    ensures var n := |recipients|;
      Summarize(Success(Results(recipients, server, n))) == Done(Deliveries(server, n), n - Deliveries(server, n))
  {
    ResultsAt(recipients, server, |recipients|);
    CountSuccessResults(recipients, server, |recipients|);
  }

  // ---------------------------------------------------------------------------
  // The handlers
  // ---------------------------------------------------------------------------

  /** The closure `job` of `handle_schedule_send`: `_send` of what was collected then. */
  datatype SendJob = SendJob(recipients: seq<string>, message: string)

  /** What a button press leads to. */
  datatype Action =
    | Rejected(reason: Warning)                                           // a warning or error box; nothing sent
    | SendNow(recipients: seq<string>, message: string)                   // `_send(recipients, message)`
    | SendTest(chatId: string, message: string)                           // one test message to `chatId`
    | Scheduled(target: DateTime, recipients: seq<string>, message: string) // one timer registered

  /** What a test send shows: success, the "Failed: ..." error, or the exception text. */
  datatype TestNotice = TestSucceeded | TestFailed(error: string) | TestError(text: string)

  function TestReport(outcome: Result<Triple, string>): (r: TestNotice)
    ensures r == TestSucceeded <==> outcome.Success? && outcome.value.status == StatusSuccess
    ensures r.TestFailed? <==> outcome.Success? && outcome.value.status != StatusSuccess
    ensures r.TestFailed? ==> r.error == outcome.value.error
    ensures r.TestError? <==> outcome.Failure?
    ensures r.TestError? ==> r.text == outcome.error
  {
    match outcome
    case Failure(text) => TestError(text)
    case Success(triple) => if triple.status == StatusSuccess then TestSucceeded else TestFailed(triple.error)
  }

  /** Why `load_csv` left the recipient list as it was. */
  datatype LoadError = FileError(text: string) | BadCsv(error: CsvError)

  /** What `load_csv` ends with. */
  datatype LoadNotice = Cancelled | LoadFailed(error: LoadError) | Loaded(count: nat)

  class SenderApp {
    /** `self.recipients`: the ids of the last successfully loaded CSV file. */
    var recipients: seq<string>
    /** The timers `schedule_send` has started. */
    const timers: Timers<SendJob, string>

    constructor ()
      ensures recipients == [] && fresh(timers) && timers.pending == []
    {
      recipients := [];
      timers := new Timers();
    }

    /**
     * `load_csv()`: `csvPath` is the dialog's answer ("" when cancelled) and
     * `file` is the tokenised file, or the text of the error opening it.
     * A successful load replaces the list; nothing else changes it.
     */
    method LoadCsv(csvPath: string, file: Result<CsvTable, string>) returns (notice: LoadNotice)
      modifies this
      ensures csvPath == [] ==> notice == Cancelled
      ensures csvPath != [] && file.Failure? ==> notice == LoadFailed(FileError(file.error))
      ensures csvPath != [] && file.Success? ==>
        match CsvRecipients(file.value)
        case Failure(e) => notice == LoadFailed(BadCsv(e))
        case Success(ids) => notice == Loaded(|ids|)
      ensures notice.Loaded? ==> recipients == CsvRecipients(file.value).value
      ensures !notice.Loaded? ==> recipients == old(recipients)
    {
      if csvPath == [] {
        return Cancelled;
      }
      if file.Failure? {
        return LoadFailed(FileError(file.error));
      }
      var loaded := LoadRecipientsFromCsv(file.value);
      if loaded.Failure? {
        return LoadFailed(BadCsv(loaded.error));
      }
      recipients := loaded.value;
      notice := Loaded(|loaded.value|);
    }

    /**
     * `handle_immediate_send()`: collect, validate, then send to exactly the
     * collected list.
     */
    method HandleImmediateSend(pasted: string, message: string) returns (action: Action)
      ensures var collected := Collect(recipients, pasted);
        && (action.SendNow? <==> Validate(collected, message) == None)
        && (action.SendNow? ==> action == SendNow(collected, message))
        && (!action.SendNow? ==> action == Rejected(Validate(collected, message).value))
    {
      var collected := Collect(recipients, pasted);
      var warning := Validate(collected, message);
      if warning.Some? {
        return Rejected(warning.value);
      }
      action := SendNow(collected, message);
    }

    /**
     * `handle_test_send()`: the stripped chat id must be non-empty, checked
     * first, then the message must not be whitespace only.
     */
    method HandleTestSend(chatIdText: string, message: string) returns (action: Action)
      ensures action == Rejected(NoTestChatId) <==> AllSpace(chatIdText)
      ensures action == Rejected(EmptyMessage) <==> !AllSpace(chatIdText) && AllSpace(message)
      ensures action.SendTest? <==> !AllSpace(chatIdText) && !AllSpace(message)
      ensures action.SendTest? ==> action == SendTest(Strip(chatIdText), message)
      ensures action.SendTest? ==> action.chatId != [] && IsStripped(action.chatId)
      ensures action.Rejected? || action.SendTest?
    {
      var chatId := Strip(chatIdText);
      if chatId == [] {
        return Rejected(NoTestChatId);
      }
      if Strip(message) == [] {
        return Rejected(EmptyMessage);
      }
      action := SendTest(chatId, message);
    }

    /**
     * `handle_schedule_send()`: the stripped time text is parsed first, and
     * only then are the recipients collected and validated; when every check
     * passes exactly one timer is registered, whose job captures the list and
     * the message as they were at this moment. `now` is the current time in
     * Asia/Seoul.
     */
    method HandleScheduleSend(timeText: string, pasted: string, message: string, now: DateTime)
      returns (action: Action)
      requires ValidDateTime(now) && now.zone == AsiaSeoul
      modifies timers
      ensures var parsed := ParseScheduleTime(Strip(timeText));
        var collected := Collect(recipients, pasted);
        && (parsed.Failure? ==> action == Rejected(BadScheduleTime(parsed.error)))
        && (parsed.Success? && Validate(collected, message).Some? ==>
              action == Rejected(Validate(collected, message).value))
        && (parsed.Success? && Validate(collected, message).None? ==>
              action == Scheduled(parsed.value, collected, message))
      ensures action.Scheduled? ==>
        timers.pending == old(timers.pending) + [Job(Delay(action.target, now).value, SendJob(action.recipients, action.message), [])]
      ensures !action.Scheduled? ==> timers.pending == old(timers.pending)
    {
      var parsed := ParseScheduleTime(Strip(timeText));
      if parsed.Failure? {
        return Rejected(BadScheduleTime(parsed.error));
      }
      var target := parsed.value;
      var collected := Collect(recipients, pasted);
      var warning := Validate(collected, message);
      if warning.Some? {
        return Rejected(warning.value);
      }
      var job := timers.ScheduleSend(target, SendJob(collected, message), [], now);
      action := Scheduled(target, collected, message);
    }
  }

  /** A send the window starts always goes to 1 to 50 distinct ids with a non-blank message. */
  lemma ImmediateSendIsValid(loaded: seq<string>, pasted: string, message: string)
    requires Validate(Collect(loaded, pasted), message) == None
    ensures var collected := Collect(loaded, pasted);
      && 1 <= |collected| <= DefaultRecipientLimit && NoDuplicates(collected) && !AllSpace(message)
      && (forall x :: x in collected <==> x in loaded || x in ParseChatIds(pasted))
  {
  }
}
