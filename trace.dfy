/** What the benchmark does to its transport and to its log, seen as a trace of events.
    The JMS session, producer and latch are not modelled as objects: every call the
    harness makes on them that matters for the measurement appends one event. */
module Trace {

  datatype Event =
    | Send                     // producer.send of the reusable payload
    | Commit                   // session.commit
    | ProgressLog(count: nat)  // a "sent/received %6d messages" progress line
    | Countdown                // countDownLatch.countDown
    | StackTrace               // an exception caught and printed with printStackTrace

  datatype Kind = SendKind | CommitKind | ProgressKind | CountdownKind | StackTraceKind

  function KindOf(e: Event): Kind
  {
    match e
    case Send => SendKind
    case Commit => CommitKind
    case ProgressLog(_) => ProgressKind
    case Countdown => CountdownKind
    case StackTrace => StackTraceKind
  }

  /** Number of events of kind `k` in `t`. */
  function Count(t: seq<Event>, k: Kind): (n: nat)
    ensures n <= |t|
  {
    if t == [] then 0
    else Count(t[..|t| - 1], k) + (if KindOf(t[|t| - 1]) == k then 1 else 0)
  }

  function Sends(t: seq<Event>): nat { Count(t, SendKind) }

  function Commits(t: seq<Event>): nat { Count(t, CommitKind) }

  /** For every event of kind `k`, in order, the number of sends that precede it:
      a commit marked `i` is the commit that follows the i-th send. */
  function Marks(t: seq<Event>, k: Kind): seq<nat>
  {
    if t == [] then []
    else Marks(t[..|t| - 1], k) + (if KindOf(t[|t| - 1]) == k then [Sends(t[..|t| - 1])] else [])
  }

  /** The counts printed by the progress lines of `t`, in order. */
  function ProgressCounts(t: seq<Event>): (c: seq<nat>)
    ensures |c| == Count(t, ProgressKind)
  {
    if t == [] then []
    else ProgressCounts(t[..|t| - 1]) + (match t[|t| - 1] case ProgressLog(n) => [n] case _ => [])
  }

  /** The positive multiples of `m` that do not exceed `n`, in increasing order. */
  function Multiples(m: nat, n: nat): (r: seq<nat>)
    requires m > 0
  {
    seq(n / m, j => (j + 1) * m)
  }

  /** One mark per event of the kind. */
  lemma {:induction false} MarksLength(t: seq<Event>, k: Kind)
    ensures |Marks(t, k)| == Count(t, k)
    decreases |t|
  {
    if t != [] {
      MarksLength(t[..|t| - 1], k);
    }
  }

  lemma Snoc(t: seq<Event>, e: Event)
    ensures (t + [e])[..|t|] == t
  {
  }

  /** Appending one event extends each observation by at most that event. */
  lemma CountSnoc(t: seq<Event>, e: Event, k: Kind)
    ensures Count(t + [e], k) == Count(t, k) + (if KindOf(e) == k then 1 else 0)
  {
    Snoc(t, e);
  }

  lemma MarksSnoc(t: seq<Event>, e: Event, k: Kind)
    ensures Marks(t + [e], k) == Marks(t, k) + (if KindOf(e) == k then [Sends(t)] else [])
  {
    Snoc(t, e);
  }

  lemma ProgressSnoc(t: seq<Event>, e: Event)
    ensures ProgressCounts(t + [e]) == ProgressCounts(t) + (match e case ProgressLog(n) => [n] case _ => [])
  {
    Snoc(t, e);
  }

  /** `t` followed by `e` when `b` holds. */
  function AppendIf(t: seq<Event>, b: bool, e: Event): seq<Event>
  {
    if b then t + [e] else t
  }

  /** `t` followed by the events of one pass of a sending loop: a send, then possibly a
      commit, then possibly a progress line showing `shown`. */
  function AppendPass(t: seq<Event>, commit: bool, log: bool, shown: nat): seq<Event>
  {
    AppendIf(AppendIf(AppendIf(t, true, Send), commit, Commit), log, ProgressLog(shown))
  }

  lemma AppendIfCount(t: seq<Event>, b: bool, e: Event, k: Kind)
    ensures Count(AppendIf(t, b, e), k) == Count(t, k) + (if b && KindOf(e) == k then 1 else 0)
  {
    if b {
      CountSnoc(t, e, k);
    }
  }

  lemma AppendIfMarks(t: seq<Event>, b: bool, e: Event, k: Kind)
    ensures Marks(AppendIf(t, b, e), k) == Marks(t, k) + (if b && KindOf(e) == k then [Sends(t)] else [])
    ensures Sends(AppendIf(t, b, e)) == Sends(t) + (if b && KindOf(e) == SendKind then 1 else 0)
  {
    if b {
      MarksSnoc(t, e, k);
      CountSnoc(t, e, SendKind);
    }
  }

  lemma AppendIfProgress(t: seq<Event>, b: bool, e: Event)
    ensures ProgressCounts(AppendIf(t, b, e)) ==
      ProgressCounts(t) + (if b then match e case ProgressLog(n) => [n] case _ => [] else [])
  {
    if b {
      ProgressSnoc(t, e);
    }
  }

  /** Appending one pass adds one send and no count-down and no stack trace. */
  lemma AppendPassCount(t: seq<Event>, commit: bool, log: bool, shown: nat, k: Kind)
    ensures Count(AppendPass(t, commit, log, shown), k) == Count(t, k)
      + (if k == SendKind then 1 else 0)
      + (if commit && k == CommitKind then 1 else 0)
      + (if log && k == ProgressKind then 1 else 0)
  {
    var t1 := AppendIf(t, true, Send);
    var t2 := AppendIf(t1, commit, Commit);
    AppendIfCount(t, true, Send, k);
    AppendIfCount(t1, commit, Commit, k);
    AppendIfCount(t2, log, ProgressLog(shown), k);
  }

  /** Appending one pass places its commit and its progress line right after its send. */
  lemma AppendPassMarks(t: seq<Event>, commit: bool, log: bool, shown: nat, k: Kind)
    requires k == CommitKind || k == ProgressKind
    ensures Marks(AppendPass(t, commit, log, shown), k) == Marks(t, k)
      + (if (commit && k == CommitKind) || (log && k == ProgressKind) then [Sends(t) + 1] else [])
  {
    var t1 := AppendIf(t, true, Send);
    var t2 := AppendIf(t1, commit, Commit);
    AppendIfMarks(t, true, Send, k);
    AppendIfMarks(t1, commit, Commit, k);
    AppendIfMarks(t2, log, ProgressLog(shown), k);
  }

  /** Appending one pass prints `shown` exactly when the pass logs. */
  lemma AppendPassProgress(t: seq<Event>, commit: bool, log: bool, shown: nat)
    ensures ProgressCounts(AppendPass(t, commit, log, shown)) == ProgressCounts(t) + (if log then [shown] else [])
  {
    var t1 := AppendIf(t, true, Send);
    var t2 := AppendIf(t1, commit, Commit);
    AppendIfProgress(t, true, Send);
    AppendIfProgress(t1, commit, Commit);
    AppendIfProgress(t2, log, ProgressLog(shown));
  }

  lemma {:induction false} CountAppend(a: seq<Event>, b: seq<Event>, k: Kind)
    ensures Count(a + b, k) == Count(a, k) + Count(b, k)
    decreases |b|
  {
    if b == [] {
      assert a + b == a;
    } else {
      var b' := b[..|b| - 1];
      var e := b[|b| - 1];
      assert b == b' + [e];
      assert a + b == (a + b') + [e];
      CountAppend(a, b', k);
      CountSnoc(a + b', e, k);
      CountSnoc(b', e, k);
    }
  }

  /** A sequence of at most one event holds one event of kind `k` or none. */
  lemma CountShort(x: seq<Event>, k: Kind)
    requires |x| <= 1
    ensures Count(x, k) == (if x != [] && KindOf(x[0]) == k then 1 else 0)
  {
    if x != [] {
      assert x[..0] == [];
    }
  }

  /** Appending three parts one after the other appends their concatenation. */
  lemma AppendThree(t: seq<Event>, x: seq<Event>, y: seq<Event>, z: seq<Event>)
    ensures t + x + y + z == t + (x + y + z)
  {
  }

  /** Counting in a sequence built from three parts of at most one event each. */
  lemma CountOfParts(x: seq<Event>, y: seq<Event>, z: seq<Event>, k: Kind)
    requires |x| <= 1 && |y| <= 1 && |z| <= 1
    ensures Count(x + y + z, k) ==
      (if x != [] && KindOf(x[0]) == k then 1 else 0) +
      (if y != [] && KindOf(y[0]) == k then 1 else 0) +
      (if z != [] && KindOf(z[0]) == k then 1 else 0)
  {
    assert Count(x + y + z, k) == Count(x, k) + Count(y, k) + Count(z, k) by {
      CountAppend(x + y, z, k);
      CountAppend(x, y, k);
    }
    CountShort(x, k);
    CountShort(y, k);
    CountShort(z, k);
  }

  lemma {:induction false} ProgressCountsAppend(a: seq<Event>, b: seq<Event>)
    ensures ProgressCounts(a + b) == ProgressCounts(a) + ProgressCounts(b)
    decreases |b|
  {
    if b == [] {
      assert a + b == a;
    } else {
      var b' := b[..|b| - 1];
      var e := b[|b| - 1];
      assert b == b' + [e];
      assert a + b == (a + b') + [e];
      ProgressCountsAppend(a, b');
      ProgressSnoc(a + b', e);
      ProgressSnoc(b', e);
    }
  }

  /** Division by a positive `m` is determined by bounds on the quotient. */
  lemma DivBetween(x: nat, m: nat, q: nat)
    requires m > 0 && q * m <= x < (q + 1) * m
    ensures x / m == q && x % m == x - q * m
  {
    var d := x / m;
    if d < q {
      MulMono(d + 1, q, m);
      assert false;
    } else if d > q {
      MulMono(q + 1, d, m);
      assert false;
    }
  }

  lemma {:induction false} MulMono(a: nat, b: nat, m: nat)
    requires a <= b
    ensures a * m <= b * m
    decreases b - a
  {
    if a < b {
      MulMono(a + 1, b, m);
      assert (a + 1) * m == a * m + m;
    }
  }

  /** Going from `k - 1` to `k` adds a multiple of `m` exactly when `m` divides `k`. */
  lemma DivStep(k: nat, m: nat)
    requires m > 0 && k >= 1
    ensures k % m == 0 ==> k / m == (k - 1) / m + 1 && k == (k / m) * m
    ensures k % m != 0 ==> k / m == (k - 1) / m
  {
    var q := (k - 1) / m;
    DivBetween(k - 1, m, q);
    if (k - 1) % m == m - 1 {
      assert k == (q + 1) * m;
      DivBetween(k, m, q + 1);
    } else {
      DivBetween(k, m, q);
    }
  }

  lemma MultiplesNext(m: nat, k: nat)
    requires m > 0 && k >= 1
    ensures Multiples(m, k) == Multiples(m, k - 1) + (if k % m == 0 then [k] else [])
  {
    DivStep(k, m);
  }

  /** Stepping k past w adds one to (k - w) / m exactly when m divides k - w. */
  lemma QuotientStep(k: nat, w: nat, m: nat)
    requires m > 0 && k > w
    ensures (k - w) / m == (k - 1 - w) / m + (if (k - w) % m == 0 then 1 else 0)
  {
    DivStep(k - w, m);
    assert k - w - 1 == k - 1 - w;
  }

  /** Among 1..k there are exactly k / m multiples of m, and ceil(k / m) numbers
      whose predecessor is a multiple of m. */
  lemma CeilSplit(k: nat, m: nat)
    requires m > 0 && k >= 1
    ensures (k + m - 1) / m == (k - 1) / m + 1
    ensures (k + m - 1) / m == k / m + (if k % m == 0 then 0 else 1)
  {
    var q := (k - 1) / m;
    DivBetween(k - 1, m, q);
    DivBetween(k + m - 1, m, q + 1);
    DivStep(k, m);
  }
}
