/** The producer role: `sendMessages`, a counted loop that sends the same payload,
    commits on batch boundaries and logs progress, and `runSender`, which runs it
    once to warm up and once to measure. */
module Sender {
  import opened Trace
  import opened Config

  /** How a call ends: normally, or with java.lang.ArithmeticException ("/ by zero")
      from a `%` whose right operand is zero. */
  datatype Outcome = Normal | DivisionByZero

  datatype Run = Run(events: seq<Event>, outcome: Outcome)

  /** No pass of the loop evaluates `% 0`: a transacted call uses the batch size and a
      displaying call the progress modulus, and neither may then be zero. */
  predicate Safe(modulo: nat, batch: nat, transacted: bool, display: bool)
  {
    (transacted ==> batch > 0) && (display ==> modulo > 0)
  }

  /** Reference definition of the events of passes 1..k of the loop, when no pass raises. */
  function Passes(k: nat, modulo: nat, batch: nat, transacted: bool, display: bool): seq<Event>
    requires k == 0 || Safe(modulo, batch, transacted, display)
  {
    if k == 0 then []
    else
      AppendPass(Passes(k - 1, modulo, batch, transacted, display),
        transacted && k % batch == 0, display && k % modulo == 0, k)
  }

  /** Reference definition of one call of sendMessages with `numberOfMessages = n`.
      Every `% 0` is raised on the first pass, after its send (and after its commit,
      for the progress modulus; `1 % batch == 0` holds exactly for a batch size of 1). After a normal loop one more commit is issued when
      the session is transacted and the last pass did not commit, which includes the
      case n = 0, since `committed` starts false. */
  function SendRun(n: nat, batch: nat, transacted: bool, display: bool): Run
  {
    if n == 0 then
      Run(AppendIf([], transacted, Commit), Normal)
    else if transacted && batch == 0 then
      Run(AppendPass([], false, false, 1), DivisionByZero)
    else if display && n / 10 == 0 then
      Run(AppendPass([], transacted && batch == 1, false, 1), DivisionByZero)
    else
      Run(Completed(n, batch, transacted, display), Normal)
  }

  /** After k safe passes: k sends, commits only in a transacted call, progress lines
      only in a displaying one, and nothing else. */
  lemma {:induction false} PassesCount(k: nat, modulo: nat, batch: nat, transacted: bool, display: bool, kind: Kind)
    requires k == 0 || Safe(modulo, batch, transacted, display)
    ensures var c := Count(Passes(k, modulo, batch, transacted, display), kind);
      (kind == CommitKind && !transacted ==> c == 0) &&
      (kind == ProgressKind && !display ==> c == 0) &&
      (kind == CountdownKind || kind == StackTraceKind ==> c == 0)
  {
    if k > 0 {
      PassesCount(k - 1, modulo, batch, transacted, display, kind);
      AppendPassCount(Passes(k - 1, modulo, batch, transacted, display),
        transacted && k % batch == 0, display && k % modulo == 0, k, kind);
    }
  }

  /** After k safe passes: exactly k sends. */
  lemma {:induction false} PassesSends(k: nat, modulo: nat, batch: nat, transacted: bool, display: bool)
    requires k == 0 || Safe(modulo, batch, transacted, display)
    ensures Sends(Passes(k, modulo, batch, transacted, display)) == k
  {
    if k > 0 {
      PassesSends(k - 1, modulo, batch, transacted, display);
      AppendPassCount(Passes(k - 1, modulo, batch, transacted, display),
        transacted && k % batch == 0, display && k % modulo == 0, k, SendKind);
    }
  }

  /** Pass k adds a commit mark k when it commits and a progress mark k when it logs. */
  lemma PassMarks(k: nat, modulo: nat, batch: nat, transacted: bool, display: bool, kind: Kind)
    requires k >= 1 && Safe(modulo, batch, transacted, display)
    requires kind == CommitKind || kind == ProgressKind
    ensures Marks(Passes(k, modulo, batch, transacted, display), kind) ==
      Marks(Passes(k - 1, modulo, batch, transacted, display), kind) +
      (if (kind == CommitKind && transacted && k % batch == 0) || (kind == ProgressKind && display && k % modulo == 0)
       then [k] else [])
  {
    PassesSends(k - 1, modulo, batch, transacted, display);
    AppendPassMarks(Passes(k - 1, modulo, batch, transacted, display),
      transacted && k % batch == 0, display && k % modulo == 0, k, kind);
  }

  /** After k safe passes of a transacted call, a commit follows send i exactly when
      the batch size divides i. */
  lemma {:induction false} PassesCommitMarks(k: nat, modulo: nat, batch: nat, transacted: bool, display: bool)
    requires k == 0 || Safe(modulo, batch, transacted, display)
    requires transacted && batch > 0
    ensures Marks(Passes(k, modulo, batch, transacted, display), CommitKind) == Multiples(batch, k)
  {
    if k > 0 {
      PassesCommitMarks(k - 1, modulo, batch, transacted, display);
      PassMarks(k, modulo, batch, transacted, display, CommitKind);
      MultiplesNext(batch, k);
    }
  }

  /** After k safe passes of a displaying call, a progress line follows send i, and
      shows i, exactly when the modulus divides i. */
  lemma PassesProgress(k: nat, modulo: nat, batch: nat, transacted: bool, display: bool)
    requires k == 0 || Safe(modulo, batch, transacted, display)
    requires display && modulo > 0
    ensures Marks(Passes(k, modulo, batch, transacted, display), ProgressKind) == Multiples(modulo, k)
    ensures ProgressCounts(Passes(k, modulo, batch, transacted, display)) == Multiples(modulo, k)
  {
    PassesProgressMarks(k, modulo, batch, transacted, display);
    PassesProgressCounts(k, modulo, batch, transacted, display);
  }

  lemma {:induction false} PassesProgressMarks(k: nat, modulo: nat, batch: nat, transacted: bool, display: bool)
    requires k == 0 || Safe(modulo, batch, transacted, display)
    requires display && modulo > 0
    ensures Marks(Passes(k, modulo, batch, transacted, display), ProgressKind) == Multiples(modulo, k)
  {
    if k > 0 {
      PassesProgressMarks(k - 1, modulo, batch, transacted, display);
      PassMarks(k, modulo, batch, transacted, display, ProgressKind);
      MultiplesNext(modulo, k);
    }
  }

  lemma {:induction false} PassesProgressCounts(k: nat, modulo: nat, batch: nat, transacted: bool, display: bool)
    requires k == 0 || Safe(modulo, batch, transacted, display)
    requires display && modulo > 0
    ensures ProgressCounts(Passes(k, modulo, batch, transacted, display)) == Multiples(modulo, k)
  {
    if k > 0 {
      var before := Passes(k - 1, modulo, batch, transacted, display);
      var shown := if k % modulo == 0 then [k] else [];
      assert ProgressCounts(before) == Multiples(modulo, k - 1) by {
        PassesProgressCounts(k - 1, modulo, batch, transacted, display);
      }
      assert ProgressCounts(Passes(k, modulo, batch, transacted, display)) == ProgressCounts(before) + shown by {
        AppendPassProgress(before, transacted && k % batch == 0, k % modulo == 0, k);
      }
      assert Multiples(modulo, k) == Multiples(modulo, k - 1) + shown by { MultiplesNext(modulo, k); }
    }
  }

  /** The events of a call that makes all its passes: the passes, then the trailing
      commit when the session is transacted and the last pass did not commit. */
  function Completed(n: nat, batch: nat, transacted: bool, display: bool): seq<Event>
    requires n > 0 && Safe(n / 10, batch, transacted, display)
  {
    AppendIf(Passes(n, n / 10, batch, transacted, display), transacted && n % batch != 0, Commit)
  }

  /** A completed call sends n messages and neither counts down nor raises. */
  lemma CompletedSends(n: nat, batch: nat, transacted: bool, display: bool)
    requires n > 0 && Safe(n / 10, batch, transacted, display)
    ensures var r := Completed(n, batch, transacted, display);
      Sends(r) == n && Count(r, CountdownKind) == 0 && Count(r, StackTraceKind) == 0
  {
    var p := Passes(n, n / 10, batch, transacted, display);
    var last := transacted && n % batch != 0;
    PassesSends(n, n / 10, batch, transacted, display);
    PassesCount(n, n / 10, batch, transacted, display, CountdownKind);
    PassesCount(n, n / 10, batch, transacted, display, StackTraceKind);
    AppendIfCount(p, last, Commit, SendKind);
    AppendIfCount(p, last, Commit, CountdownKind);
    AppendIfCount(p, last, Commit, StackTraceKind);
  }

  /** A completed call commits after the sends at multiples of the batch size, and after
      send n unless n is one of them; it never commits outside a transaction. */
  lemma CompletedCommits(n: nat, batch: nat, transacted: bool, display: bool)
    requires n > 0 && Safe(n / 10, batch, transacted, display)
    ensures var r := Completed(n, batch, transacted, display);
      (!transacted ==> Commits(r) == 0) &&
      (transacted ==> Marks(r, CommitKind) == Multiples(batch, n) + (if n % batch == 0 then [] else [n]))
  {
    var p := Passes(n, n / 10, batch, transacted, display);
    var last := transacted && n % batch != 0;
    PassesCount(n, n / 10, batch, transacted, display, CommitKind);
    PassesSends(n, n / 10, batch, transacted, display);
    if transacted {
      PassesCommitMarks(n, n / 10, batch, transacted, display);
    }
    AppendIfMarks(p, last, Commit, CommitKind);
    AppendIfCount(p, last, Commit, CommitKind);
  }

  /** A completed call logs right after the sends at multiples of n / 10 when it
      displays, and never otherwise. */
  lemma CompletedProgress(n: nat, batch: nat, transacted: bool, display: bool)
    requires n > 0 && Safe(n / 10, batch, transacted, display)
    ensures var r := Completed(n, batch, transacted, display);
      (!display ==> ProgressCounts(r) == []) &&
      (display ==> Marks(r, ProgressKind) == Multiples(n / 10, n) && ProgressCounts(r) == Multiples(n / 10, n))
  {
    var p := Passes(n, n / 10, batch, transacted, display);
    var last := transacted && n % batch != 0;
    PassesCount(n, n / 10, batch, transacted, display, ProgressKind);
    if display {
      PassesProgress(n, n / 10, batch, transacted, display);
    }
    AppendIfMarks(p, last, Commit, ProgressKind);
    AppendIfProgress(p, last, Commit);
  }

  /** A call that raises has made one send, possibly its commit, and nothing else. */
  lemma FailedEvents(commit: bool)
    ensures var r := AppendPass([], commit, false, 1);
      Sends(r) == 1 && ProgressCounts(r) == [] && Commits(r) == (if commit then 1 else 0) &&
      Count(r, CountdownKind) == 0 && Count(r, StackTraceKind) == 0
  {
    AppendPassCount([], commit, false, 1, SendKind);
    AppendPassCount([], commit, false, 1, CommitKind);
    AppendPassCount([], commit, false, 1, CountdownKind);
    AppendPassCount([], commit, false, 1, StackTraceKind);
    AppendPassProgress([], commit, false, 1);
  }

  /** A call with n = 0 makes no pass and commits once when transacted. */
  lemma EmptyEvents(transacted: bool)
    ensures var r := AppendIf([], transacted, Commit);
      Sends(r) == 0 && ProgressCounts(r) == [] && Commits(r) == (if transacted then 1 else 0) &&
      Count(r, CountdownKind) == 0 && Count(r, StackTraceKind) == 0 &&
      Marks(r, CommitKind) == (if transacted then [0] else [])
  {
    AppendIfCount([], transacted, Commit, SendKind);
    AppendIfCount([], transacted, Commit, CommitKind);
    AppendIfCount([], transacted, Commit, CountdownKind);
    AppendIfCount([], transacted, Commit, StackTraceKind);
    AppendIfProgress([], transacted, Commit);
    AppendIfMarks([], transacted, Commit, CommitKind);
  }

  /** A call fails exactly when it makes at least one pass and the batch size or the
      progress modulus it uses is zero; it then stops after a single send. A call that
      completes sends exactly n messages. No call counts down or prints a stack trace. */
  lemma SendRunSends(n: nat, batch: nat, transacted: bool, display: bool)
    ensures var r := SendRun(n, batch, transacted, display);
      (r.outcome == DivisionByZero <==> n >= 1 && ((transacted && batch == 0) || (display && n < 10))) &&
      (r.outcome == Normal ==> Sends(r.events) == n) &&
      (r.outcome == DivisionByZero ==> Sends(r.events) == 1 && ProgressCounts(r.events) == []) &&
      Count(r.events, CountdownKind) == 0 && Count(r.events, StackTraceKind) == 0
  {
    if n == 0 {
      EmptyEvents(transacted);
    } else if Safe(n / 10, batch, transacted, display) {
      CompletedSends(n, batch, transacted, display);
    } else {
      FailedEvents(transacted && batch == 1);
    }
  }

  /** Commits of one call. Without a transacted session there is none. With one, a
      commit follows send i exactly when the batch size divides i, and one more
      follows the last send unless the last pass committed, so a call with n = 0
      still commits once. */
  lemma SendRunCommits(n: nat, batch: nat, transacted: bool, display: bool)
    ensures var r := SendRun(n, batch, transacted, display);
      (!transacted ==> Commits(r.events) == 0) &&
      (transacted && n == 0 ==> r.events == [Commit]) &&
      (transacted && batch > 0 && r.outcome == Normal ==>
        Marks(r.events, CommitKind) == Multiples(batch, n) + (if n > 0 && n % batch == 0 then [] else [n]))
  {
    if n == 0 {
      EmptyEvents(transacted);
    } else if Safe(n / 10, batch, transacted, display) {
      CompletedCommits(n, batch, transacted, display);
    } else {
      FailedEvents(transacted && batch == 1);
    }
  }

  /** Progress lines of one call: none when the call does not display; when it displays
      and completes, one line right after each send whose index is a multiple of n / 10,
      showing that index. */
  lemma SendRunProgress(n: nat, batch: nat, transacted: bool, display: bool)
    ensures var r := SendRun(n, batch, transacted, display);
      (!display || n == 0 ==> ProgressCounts(r.events) == []) &&
      (display && r.outcome == Normal && n > 0 ==>
        n / 10 > 0 &&
        Marks(r.events, ProgressKind) == Multiples(n / 10, n) &&
        ProgressCounts(r.events) == Multiples(n / 10, n))
  {
    if n == 0 {
      EmptyEvents(transacted);
    } else if Safe(n / 10, batch, transacted, display) {
      CompletedProgress(n, batch, transacted, display);
    } else {
      FailedEvents(transacted && batch == 1);
    }
  }

  /** Number of commits of a completed transacted call: n / batch on the boundaries plus
      one trailing commit unless n is a positive multiple of the batch size, so
      ceil(n / batch) for n > 0, and 1 (not 0) for n = 0. */
  lemma SendRunCommitCount(n: nat, batch: nat, transacted: bool, display: bool)
    requires transacted && batch > 0
    ensures var r := SendRun(n, batch, transacted, display);
      r.outcome == Normal ==>
        Commits(r.events) == n / batch + (if n > 0 && n % batch == 0 then 0 else 1) &&
        Commits(r.events) == (if n == 0 then 1 else (n + batch - 1) / batch)
  {
    if n == 0 {
      EmptyEvents(transacted);
    } else if Safe(n / 10, batch, transacted, display) {
      CompletedCommitCount(n, batch, transacted, display);
      CeilSplit(n, batch);
    }
  }

  /** A completed transacted call of n > 0 messages commits once per multiple of the
      batch size up to n, and once more after send n unless n is such a multiple. */
  lemma CompletedCommitCount(n: nat, batch: nat, transacted: bool, display: bool)
    requires transacted && batch > 0 && n > 0 && Safe(n / 10, batch, transacted, display)
    ensures Commits(Completed(n, batch, transacted, display)) == n / batch + (if n % batch == 0 then 0 else 1)
  {
    var r := Completed(n, batch, transacted, display);
    CompletedCommits(n, batch, transacted, display);
    MarksLength(r, CommitKind);
    assert |Multiples(batch, n)| == n / batch;
  }

  /** The three lemmas above together, stated about the events and outcome of a call
      as SendMessages promises them. */
  lemma SendRunObservations(n: nat, batch: nat, transacted: bool, display: bool, events: seq<Event>, outcome: Outcome)
    requires Run(events, outcome) == SendRun(n, batch, transacted, display)
    ensures outcome == DivisionByZero <==> n >= 1 && ((transacted && batch == 0) || (display && n < 10))
    ensures outcome == Normal ==> Sends(events) == n
    ensures !transacted ==> Commits(events) == 0
    ensures transacted && batch > 0 && outcome == Normal ==>
      Marks(events, CommitKind) == Multiples(batch, n) + (if n > 0 && n % batch == 0 then [] else [n])
    ensures !display || n == 0 ==> ProgressCounts(events) == []
    ensures display && outcome == Normal && n > 0 ==> ProgressCounts(events) == Multiples(n / 10, n)
    ensures Count(events, StackTraceKind) == 0
  {
    SendRunSends(n, batch, transacted, display);
    SendRunCommits(n, batch, transacted, display);
    SendRunProgress(n, batch, transacted, display);
  }

  /** A sender with W = 100 and N = 1000 outside a transaction: both calls complete,
      1100 messages are sent, none is committed, and the measured call logs at
      100, 200, ..., 1000. */
  lemma SenderScenario(w: nat, n: nat)
    requires w == 100 && n == 1000
    ensures var warm, measured := SendRun(w, 0, false, false), SendRun(n, 0, false, true);
      warm.outcome == Normal && measured.outcome == Normal &&
      Sends(warm.events + measured.events) == 1100 &&
      Commits(warm.events + measured.events) == 0 &&
      ProgressCounts(measured.events) == [100, 200, 300, 400, 500, 600, 700, 800, 900, 1000]
  {
    assert w / 10 == 10 && n / 10 == 100;
    var warm, measured := Completed(w, 0, false, false), Completed(n, 0, false, true);
    CompletedSends(w, 0, false, false);
    CompletedSends(n, 0, false, true);
    CompletedCommits(w, 0, false, false);
    CompletedCommits(n, 0, false, true);
    CompletedProgress(n, 0, false, true);
    CountAppend(warm, measured, SendKind);
    CountAppend(warm, measured, CommitKind);
    ThousandInTenths();
  }

  lemma ThousandInTenths()
    ensures Multiples(100, 1000) == [100, 200, 300, 400, 500, 600, 700, 800, 900, 1000]
  {
    var m := Multiples(100, 1000);
    assert |m| == 10;
    forall i | 0 <= i < 10
      ensures m[i] == (i + 1) * 100
    {
    }
  }

  /** sendMessages(numberOfMessages, _, txBatchSize, _, transacted, display), lines 154-192.
      The producer set-up and the payload (lines 156-162) only shape what is sent and are
      not part of the trace. */
  method SendMessages(numberOfMessages: nat, txBatchSize: nat, transacted: bool, display: bool)
    returns (events: seq<Event>, outcome: Outcome)
    ensures Run(events, outcome) == SendRun(numberOfMessages, txBatchSize, transacted, display)
    ensures outcome == DivisionByZero <==>
      numberOfMessages >= 1 && ((transacted && txBatchSize == 0) || (display && numberOfMessages < 10))
    ensures outcome == Normal ==> Sends(events) == numberOfMessages
    ensures !transacted ==> Commits(events) == 0
    ensures transacted && txBatchSize > 0 && outcome == Normal ==>
      Marks(events, CommitKind) == Multiples(txBatchSize, numberOfMessages)
        + (if numberOfMessages > 0 && numberOfMessages % txBatchSize == 0 then [] else [numberOfMessages])
    ensures !display || numberOfMessages == 0 ==> ProgressCounts(events) == []
    ensures display && outcome == Normal && numberOfMessages > 0 ==>
      ProgressCounts(events) == Multiples(numberOfMessages / 10, numberOfMessages)
    ensures Count(events, StackTraceKind) == 0
  {
    var modulo := numberOfMessages / 10;
    var committed := false;
    events := [];
    var i := 1;
    while i <= numberOfMessages
      invariant 1 <= i <= numberOfMessages + 1
      invariant i > 1 ==> Safe(modulo, txBatchSize, transacted, display)
      invariant events == Passes(i - 1, modulo, txBatchSize, transacted, display)
      invariant committed <==> transacted && i > 1 && (i - 1) % txBatchSize == 0
    {
      events := events + [Send];
      if transacted {
        if txBatchSize == 0 {
          outcome := DivisionByZero;
          SendRunObservations(numberOfMessages, txBatchSize, transacted, display, events, outcome);
          return;
        }
        if i % txBatchSize == 0 {
          events := events + [Commit];
          committed := true;
        } else {
          committed := false;
        }
      }
      if display {
        if modulo == 0 {
          outcome := DivisionByZero;
          SendRunObservations(numberOfMessages, txBatchSize, transacted, display, events, outcome);
          return;
        }
        if i % modulo == 0 {
          events := events + [ProgressLog(i)];
        }
      }
      assert events == Passes(i, modulo, txBatchSize, transacted, display);
      i := i + 1;
    }
    if transacted && !committed {
      events := events + [Commit];
    }
    outcome := Normal;
    SendRunObservations(numberOfMessages, txBatchSize, transacted, display, events, outcome);
  }

  /** runSender, lines 119-152, from the first send on: a warm-up call of
      sendMessages that does not display, then the measured call that does. An
      exception from either is caught and its stack trace printed, and the average is
      then not displayed; otherwise it is (`averaged`). */
  method RunSender(params: PerfParams) returns (events: seq<Event>, averaged: bool)
    ensures var warm := SendRun(params.noOfWarmupMessages, params.transactionBatchSize, params.sessionTransacted, false);
      var measured := SendRun(params.noOfMessagesToSend, params.transactionBatchSize, params.sessionTransacted, true);
      events == warm.events + (if warm.outcome == Normal then measured.events else [])
        + (if averaged then [] else [StackTrace])
    ensures averaged <==>
      !(params.sessionTransacted && params.transactionBatchSize == 0
        && params.noOfWarmupMessages + params.noOfMessagesToSend >= 1) &&
      !(1 <= params.noOfMessagesToSend < 10)
    ensures averaged ==>
      Sends(events) == params.noOfWarmupMessages + params.noOfMessagesToSend &&
      Count(events, StackTraceKind) == 0 &&
      ProgressCounts(events) ==
        (if params.noOfMessagesToSend == 0 then [] else Multiples(params.noOfMessagesToSend / 10, params.noOfMessagesToSend))
    ensures !averaged ==> |events| > 0 && events[|events| - 1] == StackTrace
  {
    var warm, warmOutcome := SendMessages(params.noOfWarmupMessages, params.transactionBatchSize, params.sessionTransacted, false);
    var measured, measuredOutcome := [], Normal;
    if warmOutcome == Normal {
      measured, measuredOutcome := SendMessages(params.noOfMessagesToSend, params.transactionBatchSize, params.sessionTransacted, true);
    }
    averaged := warmOutcome == Normal && measuredOutcome == Normal;
    if averaged {
      events := warm + measured;
      CountAppend(warm, measured, SendKind);
      CountAppend(warm, measured, StackTraceKind);
      ProgressCountsAppend(warm, measured);
    } else {
      events := warm + measured + [StackTrace];
    }
  }
}
