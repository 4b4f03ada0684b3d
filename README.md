# PerfExample measurement protocol in Dafny

A model of the measurement protocol in HornetQ's JMS throughput example
(`PerfExample.java`). It covers both roles.

- **Sender.** `sendMessages` is a counted loop. It sends one reusable payload per
  pass. In a transacted session it commits on batch boundaries, with one trailing
  commit when the last pass did not commit. In the measured call it logs progress
  every N / 10 sends. `runSender` runs the loop once to warm up (W messages) and
  once to measure (N messages).
- **Receiver.** `PerfListener` is the message callback. Its fields `warmingUp`,
  `started` and `count` carry it from warm-up to measuring. `checkCommit` commits on
  batch boundaries. When the N-th measured message arrives, the listener counts its
  latch down. A `% 0` raised inside a callback is caught and printed; transport
  failures are not modelled (see Left out).
- **Selectors.** The small conditional choices made in `main` and `init`: the role,
  the delivery mode, the duplicates-allowed flag and the acknowledgement mode.

The JMS transport is not modelled as objects. Every call that matters to the
measurement appends one event to a trace (`Trace.Event`):

- a send;
- a commit;
- a progress line and the count it shows;
- a latch count-down;
- a printed stack trace.

Every Java `%` whose right operand can be zero is modelled explicitly. In the sender
it ends the call with the outcome `DivisionByZero`. In the listener it is a
`StackTrace` event, after which the fields stay as they were when the exception was
raised.

Files:

- `trace.dfy` holds the events and the observations over a trace. These are the
  counts by kind, the send count before each commit or progress line (`Marks`), the
  counts the progress lines show, and the positive multiples of m up to n
  (`Multiples`).
- `config.dfy` holds the parameters and the selectors.
- `sender.dfy` holds the reference definition `SendRun` of one `sendMessages` call,
  its properties, and the methods `SendMessages` and `RunSender`.
- `listener.dfy` models one `onMessage` call as two functions of the listener's
  state: `Next`, the fields it leaves, and `Emitted`, the events it appends. Each
  dispatches on `warmingUp` to a warm-up part and a measured part. Their iterates are
  `After` (the state after k messages), `Reaction` (the events of message j) and
  `History` (the events of the first k messages). The file also holds their
  properties and the classes `CountDownLatch` and `PerfListener`.
  `PerfListener.OnMessage` is proved to move the object exactly as `Next` and
  `Emitted` say.
- `overflow.dfy` holds the 32-bit loop counter of `sendMessages` (see Findings).

Three behaviours of the code are easy to misread:

- **Phase with no messages.** A transacted phase of M messages might be expected to
  make ceil(M / B) commits. With M = 0 the code still commits once, because
  `committed` starts false and the trailing commit runs
  (`Sender.SendRunCommitCount`).
- **Receiver scenario.** A receiver with W = 10, N = 100 and B = 10 might be expected
  to make 11 commits. The code makes 12. During warm-up `checkCommit` runs before the
  increment, so it commits on message 1 (count 0). On message 10 the first check
  sees count 9 and does not commit. The second check then sees count 10 and does.
  The measured phase adds ten more (`Listener.ReceiverScenario`).
- **Progress with 1 <= N < 10.** The progress modulus N / 10 is 0, and the
  `% modulo` raises rather than skipping the progress line. A displaying sender call
  then fails on its first pass, after one send, and no average is shown
  (`Sender.SendRunSends`). In the listener every measured message raises after its
  commit check; the N-th measured message raises after the count-down as well, so
  the latch is still released (`Listener.SmallRunStillCompletes`).

## Model

| member | source | states |
|---|---|---|
| Config.ChooseRole | examples/jms/src/org/jboss/jms/example/PerfExample.java:92 | the listener is chosen exactly for "-l" and "-L"; any other argument selects the sender |
| Config.ChooseDeliveryMode | examples/jms/src/org/jboss/jms/example/PerfExample.java:72 | persistent delivery exactly when the argument spells "persistent" character by character in a case Java's equalsIgnoreCase accepts; "non_persistent" selects non-persistent |
| Config.ChooseDupsOk | examples/jms/src/org/jboss/jms/example/PerfExample.java:75 | duplicates-allowed exactly when the argument spells "DUPS_OK" in any case |
| Config.ChooseAckMode | examples/jms/src/org/jboss/jms/example/PerfExample.java:109 | SESSION_TRANSACTED iff transacted; DUPS_OK_ACKNOWLEDGE iff not transacted and dupsOk; AUTO_ACKNOWLEDGE otherwise |
| Sender.PassesSends | examples/jms/src/org/jboss/jms/example/PerfExample.java:167-169 | k passes of the loop send exactly k messages |
| Sender.PassesCount | examples/jms/src/org/jboss/jms/example/PerfExample.java:167-187 | the loop commits only when transacted, logs only when displaying, and never counts down or raises in a safe pass |
| Sender.PassesCommitMarks | examples/jms/src/org/jboss/jms/example/PerfExample.java:170-181 | in a transacted call a commit follows send i exactly when the batch size divides i |
| Sender.PassesProgress | examples/jms/src/org/jboss/jms/example/PerfExample.java:182-186 | in a displaying call a progress line showing i follows send i exactly when the modulus divides i |
| Sender.SendRunSends | examples/jms/src/org/jboss/jms/example/PerfExample.java:164-187 | a call fails with `% 0` iff it makes a pass and is transacted with batch size 0 or displays with N < 10; then it stops after one send with no progress line; otherwise it sends exactly N messages |
| Sender.SendRunCommits | examples/jms/src/org/jboss/jms/example/PerfExample.java:166-191 | no commit without a transaction; with one, commits follow exactly the sends at multiples of B, plus a trailing commit after send N unless N is a positive multiple of B; N = 0 commits once |
| Sender.SendRunCommitCount | examples/jms/src/org/jboss/jms/example/PerfExample.java:166-191 | a completed transacted call commits N / B times, plus once more unless N is a positive multiple of B: ceil(N / B) for N > 0, and 1 for N = 0 |
| Sender.SendRunProgress | examples/jms/src/org/jboss/jms/example/PerfExample.java:164-186 | a call that does not display logs nothing; a completed displaying call logs right after sends N/10, 2N/10, ..., showing those counts |
| Sender.SenderScenario | examples/jms/src/org/jboss/jms/example/PerfExample.java:119-136 | W = 100, N = 1000, no transaction: both calls complete, 1100 sends, no commit, progress at 100, 200, ..., 1000 |
| Sender.SendMessages | examples/jms/src/org/jboss/jms/example/PerfExample.java:154-192 | the loop produces exactly the reference run: its error condition, exactly N sends, commits at multiples of B plus the trailing one, and progress lines at multiples of N / 10 |
| Sender.RunSender | examples/jms/src/org/jboss/jms/example/PerfExample.java:119-136 | the warm-up call's events come before the measured call's; the average is shown iff neither call raises (exact condition given); then W + N sends are made and progress appears only for the measured call; otherwise the run ends with a stack trace |
| Listener.StateAfter | examples/jms/src/org/jboss/jms/example/PerfExample.java:264-308 | after k messages: warming up iff k < W, measuring iff k > W, count is k during warm-up and k - W afterwards, latch released iff N > 0 and k >= W + N |
| Listener.PhaseChangesOnce | examples/jms/src/org/jboss/jms/example/PerfExample.java:276-299 | warm-up is left only on the W-th message, measurement starts only on the (W+1)-th, and the measured count excludes the W-th message |
| Listener.WarmupReaction | examples/jms/src/org/jboss/jms/example/PerfExample.java:276-289 | warm-up message j commits iff B divides j - 1; the W-th commits again iff its first check failed and B divides W; nothing else happens |
| Listener.MeasuredReaction | examples/jms/src/org/jboss/jms/example/PerfExample.java:291-313 | measured message c commits iff B divides c; it counts down iff c = N, before the progress check, which logs c at multiples of N / 10 or raises when N < 10 |
| Listener.MeasuredShape | examples/jms/src/org/jboss/jms/example/PerfExample.java:299-313 | from any measuring state the message's events are commit check, count-down, progress check, in that order; the second check at completion never commits |
| Listener.BatchSizeZeroStalls | examples/jms/src/org/jboss/jms/example/PerfExample.java:276-318 | a transacted session with batch size 0 raises on every message, never leaves warm-up when W > 0, and never counts the latch down |
| Listener.EmittedCountdown | examples/jms/src/org/jboss/jms/example/PerfExample.java:299-308 | one callback counts down iff it handles a measured message whose incremented count is N and checkCommit can run; a warm-up callback never does |
| Listener.CountdownMessage | examples/jms/src/org/jboss/jms/example/PerfExample.java:301-308 | the only message that counts down is message W + N, and only when N > 0 and commits can be checked |
| Listener.CountdownsInHistory | examples/jms/src/org/jboss/jms/example/PerfExample.java:301-308 | completion fires at most once: once after k >= W + N messages, never before |
| Listener.SmallRunStillCompletes | examples/jms/src/org/jboss/jms/example/PerfExample.java:301-318 | with 1 <= N < 10 message W + N still releases the latch, its last events being the count-down and then the caught `% 0` |
| Listener.EmittedCommits | examples/jms/src/org/jboss/jms/example/PerfExample.java:276-306 | a warm-up callback commits on the count before the increment, and at the W-th again on the count after it when the first check did not commit; a measured one commits at most once, on the count after the increment |
| Listener.WarmupCommitsOfMessage | examples/jms/src/org/jboss/jms/example/PerfExample.java:276-289 | warm-up message j commits iff B divides j - 1, and the W-th once more iff B > 1 divides W |
| Listener.MeasuredCommitsOfMessage | examples/jms/src/org/jboss/jms/example/PerfExample.java:291-306 | measured message j commits iff B divides j - W |
| Listener.MeasuredCommitStep | examples/jms/src/org/jboss/jms/example/PerfExample.java:291-306 | the commits of the first k messages grow by one at measured message k exactly when it completes a batch |
| Listener.CommitsOfMessage | examples/jms/src/org/jboss/jms/example/PerfExample.java:276-306 | the commits message j makes, in every phase and with or without a transaction |
| Listener.UntransactedNeverCommits | examples/jms/src/org/jboss/jms/example/PerfExample.java:321-333 | without a transaction the listener never commits |
| Listener.WarmupCommitsInHistory | examples/jms/src/org/jboss/jms/example/PerfExample.java:276-289 | after k <= W messages: ceil(k / B) commits, plus one at k = W when B > 1 divides W |
| Listener.MeasuredCommitsInHistory | examples/jms/src/org/jboss/jms/example/PerfExample.java:291-306 | after warm-up, one commit per B measured messages |
| Listener.CommitsInHistory | examples/jms/src/org/jboss/jms/example/PerfExample.java:276-333 | closed form of the commits of the first k messages in both phases |
| Listener.ReceiverScenario | examples/jms/src/org/jboss/jms/example/PerfExample.java:250-333 | W = 10, N = 100, B = 10 and 110 messages: 12 commits, one count-down, the latch held after message 109 and released by message 110 |
| Listener.CountDownLatch.constructor | examples/jms/src/org/jboss/jms/example/PerfExample.java:209 | the latch starts at the given count |
| Listener.CountDownLatch.CountDown | examples/jms/src/org/jboss/jms/example/PerfExample.java:307 | the count drops by one, never below zero |
| Listener.PerfListener.constructor | examples/jms/src/org/jboss/jms/example/PerfExample.java:264-270 | warming up iff W > 0, not started, count 0, modulus N / 10; on a latch of 1 this is the model's initial state |
| Listener.PerfListener.CheckCommit | examples/jms/src/org/jboss/jms/example/PerfExample.java:321-333 | raises iff transacted with batch size 0; otherwise commits iff transacted and B divides the count, and reports it |
| Listener.PerfListener.OnWarmupMessage | examples/jms/src/org/jboss/jms/example/PerfExample.java:276-289 | a warm-up callback changes fields and latch as `WarmupNext` says and appends `WarmupEvents` of the count before the increment |
| Listener.PerfListener.OnMeasuredMessage | examples/jms/src/org/jboss/jms/example/PerfExample.java:291-318 | a measured callback changes fields and latch as `MeasuredNext` says and appends `MeasuredEvents` of the count after the increment |
| Listener.PerfListener.OnMessage | examples/jms/src/org/jboss/jms/example/PerfExample.java:272-319 | every callback changes fields and latch as `Next` says and appends what `Emitted` says |
| Listener.DeliverMessages | examples/jms/src/org/jboss/jms/example/PerfExample.java:209-210 | a listener built on a new latch of 1 and called back k times is in state `After(p, k)` and has produced exactly `History(p, k)`, so every property above holds for the object |
| CounterOverflow.Increment | examples/jms/src/org/jboss/jms/example/PerfExample.java:167 | Java's `i++` on an int: one more below Integer.MAX_VALUE, Integer.MIN_VALUE after it, always within int range |
| CounterOverflow.CounterIsPassNumber | examples/jms/src/org/jboss/jms/example/PerfExample.java:167 | up to Integer.MAX_VALUE passes the 32-bit counter equals the pass number |
| CounterOverflow.GuardHoldsAfterWrap | examples/jms/src/org/jboss/jms/example/PerfExample.java:167 | with numberOfMessages = Integer.MAX_VALUE the guard `i <= numberOfMessages` holds on every pass, and pass Integer.MAX_VALUE + 1 runs with i = Integer.MIN_VALUE |

## Left out

- JNDI lookups, connection and session creation in `init` (lines 102-110) are not modelled. Neither are `connection.start`, `connection.close` and the errors they print (lines 138-151, 220-233). These are foreign library calls. The model starts each role at its first send or delivery.
- `drainQueue` (lines 236-248) is not modelled. Whether its loop ends depends only on the external transport.
- `displayAverage`, the durations in progress lines and the `start` timestamps are not modelled: they are wall-clock time and floating point. Progress lines keep only the count they show. "The average is displayed" is the `averaged` result of `Sender.RunSender`.
- The `CountDownLatch.await` in `runListener`, and the threads of asynchronous delivery, are not modelled. Callbacks are taken to be serial, as the transport guarantees per consumer. The rest of `runListener` is not a member: `Listener.DeliverMessages` builds its latch and listener and stands in for the transport, delivering k messages one after another.
- `Integer.parseInt`, `Boolean.parseBoolean`, and the setters, getters and `toString` of the Java `PerfParams` class are not modelled. Its values are the record `Config.PerfParams`, which both roles take. Counts are natural numbers, so negative command-line values are outside the model.
- Message size and delivery mode only shape the payload and the producer. They leave no trace event.
- Logging other than progress lines is not modelled ("READY!!!", "warmed up", parameters).
- Config.ChooseDeliveryMode: case-insensitive comparison folds only the characters whose Java case mapping lands on an ASCII letter (including long s, dotless i, capital I with dot and the Kelvin sign). The other Unicode case pairs do not occur in these ASCII literals.
- Sender.RunSender: a transport failure (`JMSException`) is not modelled. Only the `% 0` failures of the loop are.
- Listener.PerfListener.CheckCommit: a failing `session.commit` (line 327) is not modelled; only the `% 0` of a batch size 0 is. On message W + N the first check (line 300) runs before the count-down (line 307), so such a failure, caught at lines 315-318, would leave the latch at 1 and `runListener` waiting at line 211. `Listener.StateAfter` and `Listener.CountdownsInHistory` therefore hold for a transport whose commits succeed.
- Listener.PerfListener.OnMessage: `count` is an `AtomicLong` in the source and unbounded here. A 64-bit overflow would need more than 2^63 deliveries.

## Findings

| source | as written | input that shows it | evidently intended | confidence | as-written member | corrected member |
|---|---|---|---|---|---|---|
| examples/jms/src/org/jboss/jms/example/PerfExample.java:167 | `for (int i = 1; i <= numberOfMessages; i++)` with a 32-bit `int` counter | numberOfMessages = Integer.MAX_VALUE (2147483647): after the last pass `i` wraps to Integer.MIN_VALUE and the guard `i <= numberOfMessages` still holds, so the loop never ends | exactly numberOfMessages sends, then exit | not executed; high, the wrap-around is Java's defined int arithmetic | CounterOverflow.GuardHoldsAfterWrap | Sender.SendMessages |
