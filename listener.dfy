/** The consumer role: PerfListener, the message callback that counts warm-up and
    measured messages, commits on batch boundaries, logs progress and counts the
    completion latch down. The transport calls onMessage once per delivered message,
    never two calls at once. */
module Listener {
  import opened Trace
  import opened Config

  /** What one onMessage call can change: the `warmingUp` and `started` flags, the
      AtomicLong `count`, and the count of the CountDownLatch given to the listener. */
  datatype State = State(warmingUp: bool, started: bool, count: nat, latch: nat)

  /** A new listener (lines 264-270) on the latch `new CountDownLatch(1)` of line 209. */
  function Initial(p: PerfParams): State
  {
    State(p.noOfWarmupMessages > 0, false, 0, 1)
  }

  /** checkCommit (lines 321-333) raises `% 0` exactly when the session is transacted
      with batch size 0. */
  predicate CommitRaises(p: PerfParams)
  {
    p.sessionTransacted && p.transactionBatchSize == 0
  }

  predicate CommitsAt(p: PerfParams, count: nat)
    requires !CommitRaises(p)
  {
    p.sessionTransacted && count % p.transactionBatchSize == 0
  }

  /** The progress check of lines 309-313, reached after a measured message has been
      fully handled: `% 0` when fewer than 10 messages are measured. */
  function ProgressCheck(p: PerfParams, count: nat): seq<Event>
  {
    var modulo := p.noOfMessagesToSend / 10;
    if modulo == 0 then [StackTrace]
    else if count % modulo == 0 then [ProgressLog(count)]
    else []
  }

  /** The events of one checkCommit on `count` that does not raise. */
  function CommitCheck(p: PerfParams, count: nat): seq<Event>
    requires !CommitRaises(p)
  {
    if CommitsAt(p, count) then [Commit] else []
  }

  /** onMessage (lines 272-319) as two functions of the state it starts from: Next, the
      fields it leaves, and Emitted, the events it appends. An exception raised inside
      is caught at lines 315-318; it prints a stack trace and leaves the fields as they
      were when it was raised. */
  function Next(p: PerfParams, s: State): State
  {
    if s.warmingUp then WarmupNext(p, s) else MeasuredNext(p, s)
  }

  function Emitted(p: PerfParams, s: State): seq<Event>
  {
    if s.warmingUp then WarmupEvents(p, s.count) else MeasuredEvents(p, MeasuredCount(s))
  }

  /** Lines 276-289: a warm-up message increments the count unless checkCommit raised
      before, and the W-th leaves warm-up. */
  function WarmupNext(p: PerfParams, s: State): State
  {
    if CommitRaises(p) then s
    else if s.count + 1 == p.noOfWarmupMessages then s.(count := s.count + 1, warmingUp := false)
    else s.(count := s.count + 1)
  }

  /** Lines 276-289: the events of a warm-up message that finds `count` before the
      increment: the commit check, and on the W-th message a second check on the
      incremented count when the first did not commit. */
  function WarmupEvents(p: PerfParams, count: nat): seq<Event>
  {
    if CommitRaises(p) then [StackTrace]
    else
      var committed := CommitsAt(p, count);
      var first := if committed then [Commit] else [];
      if count + 1 == p.noOfWarmupMessages then
        first + (if !committed && CommitsAt(p, count + 1) then [Commit] else [])
      else
        first
  }

  /** The count of a measured message after the increment; the first measured message
      resets the count to 0 before incrementing it. */
  function MeasuredCount(s: State): nat
  {
    (if s.started then s.count else 0) + 1
  }

  /** Lines 291-313: a measured message marks the listener started, increments the
      count, and the N-th counts the latch down unless checkCommit raised before. */
  function MeasuredNext(p: PerfParams, s: State): State
  {
    var counted := s.(started := true, count := MeasuredCount(s));
    if !CommitRaises(p) && counted.count == p.noOfMessagesToSend then
      counted.(latch := if counted.latch > 0 then counted.latch - 1 else 0)
    else
      counted
  }

  /** Lines 298-313: the events of a measured message whose count, after the increment,
      is `count`: the commit check, on completion the second commit check and the
      count-down, then the progress check. */
  function MeasuredEvents(p: PerfParams, count: nat): seq<Event>
  {
    if CommitRaises(p) then [StackTrace]
    else
      var committed := CommitsAt(p, count);
      var first := if committed then [Commit] else [];
      if count == p.noOfMessagesToSend then
        var second := if !committed && CommitsAt(p, count) then [Commit] else [];
        first + second + [Countdown] + ProgressCheck(p, count)
      else
        first + ProgressCheck(p, count)
  }

  /** The state after the first k deliveries. */
  function After(p: PerfParams, k: nat): State
  {
    if k == 0 then Initial(p) else Next(p, After(p, k - 1))
  }

  /** The events the j-th delivered message causes. */
  function Reaction(p: PerfParams, j: nat): seq<Event>
    requires j >= 1
  {
    Emitted(p, After(p, j - 1))
  }

  /** The events of the first k deliveries, in order. */
  function History(p: PerfParams, k: nat): seq<Event>
  {
    if k == 0 then [] else History(p, k - 1) + Reaction(p, k)
  }

  /** When checkCommit can run, the listener warms up on the first W messages (W the
      warm-up count), leaves warm-up on the W-th without counting it as measured,
      resets the count on the next one, counts measured messages from 1, and its latch
      is released from message W + N on (N the measured count, when N > 0). */
  lemma {:induction false} StateAfter(p: PerfParams, k: nat)
    requires !CommitRaises(p)
    ensures var s, w, n := After(p, k), p.noOfWarmupMessages, p.noOfMessagesToSend;
      s.warmingUp == (k < w) &&
      s.started == (k > w) &&
      s.count == (if k <= w then k else k - w) &&
      s.latch == (if n > 0 && k >= w + n then 0 else 1)
  {
    if k > 0 {
      StateAfter(p, k - 1);
    }
  }

  /** The W-th message is the only one on which the listener leaves warm-up, and the
      (W + 1)-th the only one on which it starts measuring, with the count reset. */
  lemma PhaseChangesOnce(p: PerfParams, k: nat)
    requires !CommitRaises(p) && k >= 1
    ensures After(p, k - 1).warmingUp && !After(p, k).warmingUp <==> k == p.noOfWarmupMessages
    ensures !After(p, k - 1).started && After(p, k).started <==> k == p.noOfWarmupMessages + 1
    ensures After(p, k).started ==> After(p, k).count == k - p.noOfWarmupMessages
  {
    StateAfter(p, k - 1);
    StateAfter(p, k);
  }

  /** A warm-up message j (1 <= j <= W) commits when the count before it is a multiple of
      the batch size (messages 1, B + 1, 2B + 1, ...), because checkCommit runs before the
      increment; the W-th message commits a second time only when that first check did not
      commit and W is a multiple of B. Nothing else happens during warm-up. */
  lemma WarmupReaction(p: PerfParams, j: nat)
    requires !CommitRaises(p) && 1 <= j <= p.noOfWarmupMessages
    ensures var tx, b, w := p.sessionTransacted, p.transactionBatchSize, p.noOfWarmupMessages;
      Reaction(p, j) ==
        (if tx && (j - 1) % b == 0 then [Commit] else []) +
        (if tx && j == w && (j - 1) % b != 0 && w % b == 0 then [Commit] else [])
  {
    StateAfter(p, j - 1);
  }

  /** A measured message, the c-th after warm-up, commits exactly when the batch size
      divides c (the count after the increment); the second check made at completion never
      commits. Completion counts the latch down when c equals N, before the progress check,
      which logs c when N / 10 divides it and raises (a stack trace) when N < 10. */
  lemma MeasuredReaction(p: PerfParams, j: nat)
    requires !CommitRaises(p) && j > p.noOfWarmupMessages
    ensures var tx, b, n, c := p.sessionTransacted, p.transactionBatchSize, p.noOfMessagesToSend, j - p.noOfWarmupMessages;
      Reaction(p, j) ==
        (if tx && c % b == 0 then [Commit] else []) +
        (if c == n then [Countdown] else []) +
        (if n / 10 == 0 then [StackTrace] else if c % (n / 10) == 0 then [ProgressLog(c)] else [])
  {
    var c := j - p.noOfWarmupMessages;
    StateAfter(p, j - 1);
    assert Reaction(p, j) == MeasuredEvents(p, c);
    MeasuredShape(p, c);
  }

  /** A transacted session with batch size 0 makes every checkCommit raise. In warm-up
      that happens before the increment, so the listener never leaves warm-up; without
      warm-up each message is counted but raises before the completion test. Either way
      the latch is never counted down and runListener waits forever. */
  lemma {:induction false} BatchSizeZeroStalls(p: PerfParams, k: nat)
    requires CommitRaises(p)
    ensures After(p, k) == (if p.noOfWarmupMessages > 0 then Initial(p) else State(false, k > 0, k, 1))
    ensures k >= 1 ==> Reaction(p, k) == [StackTrace]
  {
    if k > 0 {
      BatchSizeZeroStalls(p, k - 1);
    }
  }

  /** One onMessage call counts the latch down exactly when it handles a measured
      message whose count, after the increment, equals N, and checkCommit can run. */
  lemma EmittedCountdown(p: PerfParams, s: State)
    ensures Count(Emitted(p, s), CountdownKind) ==
      (if !s.warmingUp && !CommitRaises(p) && MeasuredCount(s) == p.noOfMessagesToSend then 1 else 0)
  {
    if s.warmingUp {
      WarmupEventsCountdown(p, s.count);
    } else {
      MeasuredEventsCountdown(p, MeasuredCount(s));
    }
  }

  /** A warm-up message never counts the latch down. */
  lemma WarmupEventsCountdown(p: PerfParams, count: nat)
    ensures Count(WarmupEvents(p, count), CountdownKind) == 0
  {
    if CommitRaises(p) {
      CountShort([StackTrace], CountdownKind);
    } else {
      var committed := CommitsAt(p, count);
      var first := if committed then [Commit] else [];
      var second := if count + 1 == p.noOfWarmupMessages && !committed && CommitsAt(p, count + 1) then [Commit] else [];
      assert WarmupEvents(p, count) == first + second + [];
      CountOfParts(first, second, [], CountdownKind);
    }
  }

  /** A measured message counts the latch down exactly when its incremented count is N
      and checkCommit can run. */
  lemma MeasuredEventsCountdown(p: PerfParams, count: nat)
    ensures Count(MeasuredEvents(p, count), CountdownKind) ==
      (if !CommitRaises(p) && count == p.noOfMessagesToSend then 1 else 0)
  {
    if CommitRaises(p) {
      CountShort([StackTrace], CountdownKind);
    } else {
      var done := if count == p.noOfMessagesToSend then [Countdown] else [];
      var last := ProgressCheck(p, count);
      MeasuredShape(p, count);
      CountShort(last, CountdownKind);
      CountShort(done, CountdownKind);
      CountOfParts(CommitCheck(p, count), done, last, CountdownKind);
    }
  }

  /** With 1 <= N < 10 the progress modulus is 0, yet the N-th measured message still
      counts the latch down: the count-down comes before the `% 0`, whose exception
      the listener catches. */
  lemma SmallRunStillCompletes(p: PerfParams)
    requires !CommitRaises(p) && 1 <= p.noOfMessagesToSend < 10
    ensures var j := p.noOfWarmupMessages + p.noOfMessagesToSend;
      After(p, j).latch == 0 &&
      |Reaction(p, j)| >= 2 &&
      Reaction(p, j)[|Reaction(p, j)| - 2..] == [Countdown, StackTrace]
  {
    var j, n := p.noOfWarmupMessages + p.noOfMessagesToSend, p.noOfMessagesToSend;
    assert After(p, j).latch == 0 by { StateAfter(p, j); }
    var committed := if p.sessionTransacted && n % p.transactionBatchSize == 0 then [Commit] else [];
    assert n / 10 == 0;
    assert Reaction(p, j) == committed + [Countdown] + [StackTrace] by { MeasuredReaction(p, j); }
  }

  /** The completion latch is counted down by exactly one message, the (W + N)-th, and
      only when N > 0 and checkCommit can run. */
  lemma CountdownMessage(p: PerfParams, j: nat)
    requires j >= 1
    ensures Count(Reaction(p, j), CountdownKind) ==
      (if !CommitRaises(p) && p.noOfMessagesToSend > 0 && j == p.noOfWarmupMessages + p.noOfMessagesToSend then 1 else 0)
  {
    EmittedCountdown(p, After(p, j - 1));
    if !CommitRaises(p) {
      StateAfter(p, j - 1);
    }
  }

  /** Completion fires at most once over any number of deliveries: after k messages the
      latch has been counted down once if k >= W + N (and N > 0), and never otherwise. */
  lemma {:induction false} CountdownsInHistory(p: PerfParams, k: nat)
    ensures Count(History(p, k), CountdownKind) ==
      (if !CommitRaises(p) && p.noOfMessagesToSend > 0 && k >= p.noOfWarmupMessages + p.noOfMessagesToSend then 1 else 0)
  {
    if k > 0 {
      CountdownsInHistory(p, k - 1);
      CountdownMessage(p, k);
      CountAppend(History(p, k - 1), Reaction(p, k), CountdownKind);
    }
  }

  /** One onMessage call commits once per checkCommit that finds a multiple of the batch
      size: in warm-up on the count before the increment, and on the W-th message once
      more on the incremented count when the first check did not commit; in the measured
      phase on the count after the increment, the completion check never adding one. */
  lemma EmittedCommits(p: PerfParams, s: State)
    requires !CommitRaises(p)
    ensures Commits(Emitted(p, s)) ==
      if s.warmingUp then
        (if CommitsAt(p, s.count) then 1 else 0) +
        (if s.count + 1 == p.noOfWarmupMessages && !CommitsAt(p, s.count) && CommitsAt(p, s.count + 1) then 1 else 0)
      else
        (if CommitsAt(p, MeasuredCount(s)) then 1 else 0)
  {
    if s.warmingUp {
      WarmupEventsCommits(p, s.count);
    } else {
      MeasuredEventsCommits(p, MeasuredCount(s));
    }
  }

  /** The commits of a warm-up message: its first check, before the increment, and on
      the W-th message a second one, after it, when the first did not commit. */
  lemma WarmupEventsCommits(p: PerfParams, count: nat)
    requires !CommitRaises(p)
    ensures Commits(WarmupEvents(p, count)) ==
      (if CommitsAt(p, count) then 1 else 0) +
      (if count + 1 == p.noOfWarmupMessages && !CommitsAt(p, count) && CommitsAt(p, count + 1) then 1 else 0)
  {
    var committed := CommitsAt(p, count);
    var first := if committed then [Commit] else [];
    var second := if count + 1 == p.noOfWarmupMessages && !committed && CommitsAt(p, count + 1) then [Commit] else [];
    assert WarmupEvents(p, count) == first + second + [];
    CountOfParts(first, second, [], CommitKind);
  }

  /** A measured message commits at most once, when the batch size divides its
      incremented count. */
  lemma MeasuredEventsCommits(p: PerfParams, count: nat)
    requires !CommitRaises(p)
    ensures Commits(MeasuredEvents(p, count)) == (if CommitsAt(p, count) then 1 else 0)
  {
    var first := CommitCheck(p, count);
    var done := if count == p.noOfMessagesToSend then [Countdown] else [];
    var last := ProgressCheck(p, count);
    MeasuredShape(p, count);
    CountShort(first, CommitKind);
    CountShort(done, CommitKind);
    CountShort(last, CommitKind);
    CountOfParts(first, done, last, CommitKind);
  }

  /** The second checkCommit of a measured message is dead: it runs only when the
      first, on the same count, did not commit. A measured message's events are the
      commit check on the incremented count, then the count-down on completion, then
      the progress check. */
  lemma MeasuredShape(p: PerfParams, count: nat)
    requires !CommitRaises(p)
    ensures MeasuredEvents(p, count) ==
      CommitCheck(p, count) + (if count == p.noOfMessagesToSend then [Countdown] else []) + ProgressCheck(p, count)
  {
    if count == p.noOfMessagesToSend && !CommitsAt(p, count) {
      assert CommitCheck(p, count) + [] == CommitCheck(p, count);
    }
  }

  /** The predecessor of a positive multiple of b leaves remainder b - 1. */
  lemma BeforeMultiple(w: nat, b: nat)
    requires b > 0 && w >= 1 && w % b == 0
    ensures (w - 1) % b == b - 1
  {
    DivStep(w, b);
    DivBetween(w - 1, b, w / b - 1);
  }

  /** Message j commits, in a transacted session, when the batch size divides the number
      of warm-up messages before it, or the number of measured messages up to and
      including it; the W-th message commits twice when W is a multiple of B > 1. */
  lemma CommitsOfMessage(p: PerfParams, j: nat)
    requires !CommitRaises(p) && j >= 1
    ensures var tx, b, w := p.sessionTransacted, p.transactionBatchSize, p.noOfWarmupMessages;
      Commits(Reaction(p, j)) ==
        if !tx then 0
        else if j <= w then
          (if (j - 1) % b == 0 then 1 else 0) + (if j == w && w % b == 0 && b > 1 then 1 else 0)
        else (if (j - w) % b == 0 then 1 else 0)
  {
    if !p.sessionTransacted {
      StateAfter(p, j - 1);
      EmittedCommits(p, After(p, j - 1));
    } else if j <= p.noOfWarmupMessages {
      WarmupCommitsOfMessage(p, j);
    } else {
      MeasuredCommitsOfMessage(p, j);
    }
  }

  /** Warm-up message j finds count j - 1 before its increment, so it commits when the
      batch size divides j - 1, and the W-th once more when B > 1 divides W. */
  lemma WarmupCommitsOfMessage(p: PerfParams, j: nat)
    requires !CommitRaises(p) && p.sessionTransacted && 1 <= j <= p.noOfWarmupMessages
    ensures var b, w := p.transactionBatchSize, p.noOfWarmupMessages;
      Commits(Reaction(p, j)) ==
        (if (j - 1) % b == 0 then 1 else 0) + (if j == w && w % b == 0 && b > 1 then 1 else 0)
  {
    var w, b := p.noOfWarmupMessages, p.transactionBatchSize;
    StateAfter(p, j - 1);
    assert Reaction(p, j) == WarmupEvents(p, j - 1);
    WarmupEventsCommits(p, j - 1);
    if j == w && w % b == 0 {
      BeforeMultiple(w, b);
    }
  }

  /** Measured message j has count j - W after its increment, and commits exactly when
      the batch size divides it. */
  lemma MeasuredCommitsOfMessage(p: PerfParams, j: nat)
    requires !CommitRaises(p) && p.sessionTransacted && j > p.noOfWarmupMessages
    ensures Commits(Reaction(p, j)) == (if (j - p.noOfWarmupMessages) % p.transactionBatchSize == 0 then 1 else 0)
  {
    var c := j - p.noOfWarmupMessages;
    StateAfter(p, j - 1);
    assert Reaction(p, j) == MeasuredEvents(p, c);
    MeasuredEventsCommits(p, c);
  }

  /** How many of the counts 0, 1, ..., k - 1 the batch size b divides: ceil(k / b). */
  function MultiplesBelow(k: nat, b: nat): nat
    requires b > 0
  {
    if k == 0 then 0 else (k - 1) / b + 1
  }

  lemma MultiplesBelowStep(k: nat, b: nat)
    requires b > 0 && k >= 1
    ensures MultiplesBelow(k, b) == MultiplesBelow(k - 1, b) + (if (k - 1) % b == 0 then 1 else 0)
  {
    if k >= 2 {
      DivStep(k - 1, b);
    }
  }

  /** A session that is not transacted never commits. */
  lemma {:induction false} UntransactedNeverCommits(p: PerfParams, k: nat)
    requires !p.sessionTransacted
    ensures Commits(History(p, k)) == 0
  {
    if k > 0 {
      UntransactedNeverCommits(p, k - 1);
      CommitsOfMessage(p, k);
      CountAppend(History(p, k - 1), Reaction(p, k), CommitKind);
    }
  }

  /** In warm-up a transacted listener commits on counts 0, B, 2B, ... below k, before
      each increment, and once more at the end of warm-up when W is a multiple of B > 1. */
  lemma {:induction false} WarmupCommitsInHistory(p: PerfParams, k: nat)
    requires !CommitRaises(p) && p.sessionTransacted && k <= p.noOfWarmupMessages
    ensures var b, w := p.transactionBatchSize, p.noOfWarmupMessages;
      Commits(History(p, k)) == MultiplesBelow(k, b) + (if k == w && w >= 1 && w % b == 0 && b > 1 then 1 else 0)
  {
    if k > 0 {
      assert Commits(History(p, k)) == Commits(History(p, k - 1)) + Commits(Reaction(p, k)) by {
        CountAppend(History(p, k - 1), Reaction(p, k), CommitKind);
      }
      WarmupCommitsInHistory(p, k - 1);
      CommitsOfMessage(p, k);
      MultiplesBelowStep(k, p.transactionBatchSize);
    }
  }

  /** In the measured phase a transacted listener commits once per B measured messages. */
  lemma {:induction false} MeasuredCommitsInHistory(p: PerfParams, k: nat)
    requires !CommitRaises(p) && p.sessionTransacted && k >= p.noOfWarmupMessages
    ensures Commits(History(p, k)) ==
      Commits(History(p, p.noOfWarmupMessages)) + (k - p.noOfWarmupMessages) / p.transactionBatchSize
    decreases k
  {
    var w, b := p.noOfWarmupMessages, p.transactionBatchSize;
    if k > w {
      var now, before, start := Commits(History(p, k)), Commits(History(p, k - 1)), Commits(History(p, w));
      var completes := if (k - w) % b == 0 then 1 else 0;
      assert now == before + completes by { MeasuredCommitStep(p, k); }
      assert before == start + (k - 1 - w) / b by { MeasuredCommitsInHistory(p, k - 1); }
      assert (k - w) / b == (k - 1 - w) / b + completes by { QuotientStep(k, w, b); }
      assert now == start + (k - w) / b;
    } else {
      assert (k - w) / b == 0;
    }
  }

  /** The k-th message, measured, adds a commit exactly when it completes a batch. */
  lemma MeasuredCommitStep(p: PerfParams, k: nat)
    requires !CommitRaises(p) && p.sessionTransacted && k > p.noOfWarmupMessages
    ensures Commits(History(p, k)) == Commits(History(p, k - 1)) +
      (if (k - p.noOfWarmupMessages) % p.transactionBatchSize == 0 then 1 else 0)
  {
    CountAppend(History(p, k - 1), Reaction(p, k), CommitKind);
    MeasuredCommitsOfMessage(p, k);
  }

  /** The commits of the first k messages: none without a transaction; otherwise
      ceil(k / B) during warm-up, plus the extra commit at the end of warm-up when W is a
      multiple of B > 1, then one per B measured messages. */
  lemma CommitsInHistory(p: PerfParams, k: nat)
    requires !CommitRaises(p)
    ensures var tx, b, w := p.sessionTransacted, p.transactionBatchSize, p.noOfWarmupMessages;
      Commits(History(p, k)) ==
        if !tx then 0
        else if k <= w then
          MultiplesBelow(k, b) + (if k == w && w >= 1 && w % b == 0 && b > 1 then 1 else 0)
        else
          MultiplesBelow(w, b) + (if w >= 1 && w % b == 0 && b > 1 then 1 else 0) + (k - w) / b
  {
    if !p.sessionTransacted {
      UntransactedNeverCommits(p, k);
    } else if k <= p.noOfWarmupMessages {
      WarmupCommitsInHistory(p, k);
    } else {
      WarmupCommitsInHistory(p, p.noOfWarmupMessages);
      MeasuredCommitsInHistory(p, k);
    }
  }

  /** A receiver with W = 10, N = 100 and transactions of 10: warm-up commits on
      counts 0 and 10 (the second check of the 10th message), the measured phase ten
      times, so twelve commits in all; the latch is released by the 110th message. */
  lemma ReceiverScenario()
    ensures var p := PerfParams(100, 10, 0, NonPersistent, true, 10, false, false, "", "");
      Commits(History(p, 110)) == 12 &&
      Count(History(p, 110), CountdownKind) == 1 &&
      After(p, 109).latch == 1 && After(p, 110).latch == 0
  {
    var p := PerfParams(100, 10, 0, NonPersistent, true, 10, false, false, "", "");
    CommitsInHistory(p, 110);
    CountdownsInHistory(p, 110);
    StateAfter(p, 109);
    StateAfter(p, 110);
  }

  /** java.util.concurrent.CountDownLatch, reduced to its count. */
  class CountDownLatch {
    var count: nat

    constructor(n: nat)
      ensures count == n
    {
      count := n;
    }

    /** Decrements the count unless it is already zero. */
    method CountDown()
      modifies this
      ensures count == if old(count) > 0 then old(count) - 1 else 0
    {
      if count > 0 {
        count := count - 1;
      }
    }
  }

  /** The message listener of lines 250-333. `events` holds what its calls do to the
      session, the latch and the log: commits, count-downs, progress lines and printed
      stack traces. */
  class PerfListener {
    const countDownLatch: CountDownLatch
    const perfParams: PerfParams
    const modulo: nat
    var warmingUp: bool
    var started: bool
    var count: nat
    var events: seq<Event>

    predicate Valid()
    {
      modulo == perfParams.noOfMessagesToSend / 10
    }

    /** The listener's state as the functional model sees it. */
    function Current(): State
      reads this, countDownLatch
    {
      State(warmingUp, started, count, countDownLatch.count)
    }

    constructor(latch: CountDownLatch, params: PerfParams)
      ensures Valid() && countDownLatch == latch && perfParams == params
      ensures warmingUp == (params.noOfWarmupMessages > 0) && !started && count == 0 && events == []
      ensures latch.count == 1 ==> Current() == Initial(params)
    {
      countDownLatch := latch;
      perfParams := params;
      warmingUp := params.noOfWarmupMessages > 0;
      modulo := params.noOfMessagesToSend / 10;
      started := false;
      count := 0;
      events := [];
    }

    /** checkCommit: commits when the session is transacted and the batch size divides
        the current count; `raised` stands for the ArithmeticException of a batch size 0. */
    method CheckCommit() returns (committed: bool, raised: bool)
      modifies this`events
      ensures raised <==> CommitRaises(perfParams)
      ensures committed <==> !raised && CommitsAt(perfParams, count)
      ensures events == old(events) + (if committed then [Commit] else [])
    {
      raised := false;
      committed := false;
      if perfParams.sessionTransacted {
        if perfParams.transactionBatchSize == 0 {
          raised := true;
          return;
        }
        if count % perfParams.transactionBatchSize == 0 {
          events := events + [Commit];
          committed := true;
        }
      }
    }

    /** onMessage: every call moves the listener as Next and Emitted say; an exception ends the
        call with a stack trace and leaves the fields as they were when it was raised. */
    method OnMessage()
      requires Valid()
      modifies this, countDownLatch
      ensures Valid()
      ensures Current() == Next(perfParams, old(Current()))
      ensures events == old(events) + Emitted(perfParams, old(Current()))
    {
      if warmingUp {
        OnWarmupMessage();
      } else {
        OnMeasuredMessage();
      }
    }

    /** Lines 276-289: the commit check runs before the increment; the W-th message
        leaves warm-up, checking once more when the first check did not commit. */
    method OnWarmupMessage()
      requires Valid() && warmingUp
      modifies this
      ensures Valid()
      ensures Current() == WarmupNext(perfParams, old(Current()))
      ensures events == old(events) + WarmupEvents(perfParams, old(count))
    {
      var committed, raised := CheckCommit();
      if raised {
        events := events + [StackTrace];
        return;
      }
      count := count + 1;
      if count == perfParams.noOfWarmupMessages {
        if !committed {
          committed, raised := CheckCommit();
        }
        warmingUp := false;
      }
    }

    /** Lines 291-313: the first measured message resets the count; the commit check runs
        after the increment; the N-th measured message counts the latch down; then the
        progress check divides by N / 10. */
    method OnMeasuredMessage()
      requires Valid() && !warmingUp
      modifies this, countDownLatch
      ensures Valid()
      ensures Current() == MeasuredNext(perfParams, old(Current()))
      ensures events == old(events) + MeasuredEvents(perfParams, MeasuredCount(old(Current())))
    {
      ghost var before := events;
      if !started {
        started := true;
        count := 0;
      }
      count := count + 1;
      var currentCount := count;
      var committed, raised := CheckCommit();
      if raised {
        events := events + [StackTrace];
        assert events == before + MeasuredEvents(perfParams, currentCount);
        return;
      }
      MeasuredShape(perfParams, currentCount);
      ghost var done: seq<Event> := [];
      if currentCount == perfParams.noOfMessagesToSend {
        if !committed {
          committed, raised := CheckCommit();
        }
        countDownLatch.CountDown();
        events := events + [Countdown];
        done := [Countdown];
      }
      assert events == before + CommitCheck(perfParams, currentCount) + done;
      ghost var handled := events;
      // `currentCount % modulo` raises when modulo is 0; the handler prints the stack trace.
      if modulo == 0 {
        events := events + [StackTrace];
      } else if currentCount % modulo == 0 {
        events := events + [ProgressLog(currentCount)];
      }
      assert events == handled + ProgressCheck(perfParams, currentCount);
      AppendThree(before, CommitCheck(perfParams, currentCount), done, ProgressCheck(perfParams, currentCount));
    }
  }

  /** Lines 209-210 followed by k serial deliveries: a listener on a fresh latch of 1,
      called back once per message, is after the k-th call in the state After(p, k)
      and has produced exactly History(p, k), so every lemma above holds for it. */
  method DeliverMessages(p: PerfParams, k: nat) returns (listener: PerfListener)
    ensures listener.Valid() && listener.perfParams == p
    ensures listener.Current() == After(p, k) && listener.events == History(p, k)
  {
    var latch := new CountDownLatch(1);
    listener := new PerfListener(latch, p);
    var i := 0;
    while i < k
      invariant 0 <= i <= k
      invariant fresh(listener) && fresh(latch) && listener.countDownLatch == latch
      invariant listener.Valid() && listener.perfParams == p
      invariant listener.Current() == After(p, i) && listener.events == History(p, i)
    {
      listener.OnMessage();
      i := i + 1;
    }
  }
}
