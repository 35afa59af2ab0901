/** The parallel verification queue (src/checkqueue.h) as a state machine: one master (thread 0) and any
    number of workers, interleaved at every lock acquisition, every wake-up and every single check.

    The queue's own fields are `queue`, `nIdle`, `nTotal`, `fAllOk` and `nTodo`.  A thread is outside
    `Loop`, about to enter its first critical section, asleep on its condition variable, notified and
    about to re-acquire the lock, or outside the lock with a batch of checks of which `done` have been
    visited.  `added` is a history variable: the checks added since the last `Wait` returned. */
module CheckQueue {
  import NatMath
  import opened Bags

  /** A queued verification; `verdict` is what running it returns. */
  datatype Check = Check(id: nat, verdict: bool)

  datatype Thread =
    | Outside
    | Starting
    | Asleep
    | Notified
    | Working(batch: seq<Check>, done: nat, ok: bool)

  datatype State = State(queue: seq<Check>, nIdle: int, nTotal: int, allOk: bool, nTodo: int,
                         threads: seq<Thread>, added: seq<Check>)

  datatype Event =
    | CallAdd(checks: seq<Check>, who: nat)  // `who`: the worker that notify_one picks
    | CallWait
    | StartWorker(t: nat)
    | Enter(t: nat)
    | Wake(t: nat)
    | Evaluate(t: nat)
    | Finish(t: nat)
    | Spurious(t: nat)

  // ----- the steps -----

  /** `nNow`: how many checks a thread takes from a non-empty queue. */
  function BatchSize(limit: nat, queued: nat, total: int, idle: int): (n: nat)
    ensures queued > 0 ==> 1 <= n <= queued
  {
    // both numbers are counts of threads (see `CountsExact`)
    var threads := if total < 0 || idle < 0 then 0 else total + idle;
    NatMath.DivLe(queued, threads + 1);
    var share := queued / (threads + 1);
    var n := if share < limit then share else limit;
    if n < 1 then 1 else n
  }

  /** A thread takes its share of the queue among all threads and itself, but at least one check and not more than
      the limit. */
  lemma BatchIsShare(limit: nat, queued: nat, total: nat, idle: nat)
    ensures var n := BatchSize(limit, queued, total, idle);
            && (n > 1 ==> n <= limit && n * (total + idle + 1) <= queued)
            && (n < limit ==> queued < (n + 1) * (total + idle + 1))
  {
    var d := total + idle + 1;
    assert queued == queued / d * d + queued % d;
    var share, n := queued / d, BatchSize(limit, queued, total, idle);
    if n <= share {
      NatMath.MulMono(n, share, d);
    }
    if share < n {
      NatMath.MulMono(share + 1, n + 1, d);
    } else if n < limit {
      assert n == share;
    }
    assert (n + 1) * d == n * d + d && (share + 1) * d == share * d + d;
  }

  /** The checks a thread pops from the back of the queue, in popping order. */
  function Popped(queue: seq<Check>, n: nat): (b: seq<Check>)
    requires n <= |queue|
    ensures |b| == n
  {
    if n == 0 then [] else [queue[|queue| - 1]] + Popped(queue[..|queue| - 1], n - 1)
  }

  lemma {:induction false} PoppedBag(queue: seq<Check>, n: nat)
    requires n <= |queue|
    ensures multiset(queue) == multiset(queue[..|queue| - n]) + multiset(Popped(queue, n))
  {
    if n == 0 {
      assert queue[..|queue|] == queue;
    } else {
      var init, last := queue[..|queue| - 1], queue[|queue| - 1];
      PoppedBag(init, n - 1);
      assert init[..|queue| - n] == queue[..|queue| - n];
      LastBag(init, last);
      FirstBag(last, Popped(init, n - 1));
      assert queue == init + [last];
      Regroup(multiset(queue[..|queue| - n]), multiset(Popped(init, n - 1)), multiset{last});
    }
  }

  /** Last in, first out. */
  lemma {:induction false} PoppedAt(queue: seq<Check>, n: nat, i: nat)
    requires i < n <= |queue|
    ensures Popped(queue, n)[i] == queue[|queue| - 1 - i]
  {
    if i > 0 {
      PoppedAt(queue[..|queue| - 1], n - 1, i - 1);
    }
  }

  lemma LastBag(s: seq<Check>, x: Check)
    ensures multiset(s + [x]) == multiset(s) + multiset{x}
  {
  }

  lemma FirstBag(x: Check, s: seq<Check>)
    ensures multiset([x] + s) == multiset{x} + multiset(s)
  {
  }

  /** The top of the inner loop, reached with the lock held: take a batch, return from `Wait`, or sleep. */
  function AtQueue(limit: nat, s: State, t: nat): State
    requires t < |s.threads|
  {
    if s.queue != [] then
      var n := BatchSize(limit, |s.queue|, s.nTotal, s.nIdle);
      s.(queue := s.queue[..|s.queue| - n],
         threads := s.threads[t := Working(Popped(s.queue, n), 0, s.allOk)])
    else if Returns(s, t) then
      s.(nTotal := s.nTotal - 1, allOk := true, threads := s.threads[t := Outside], added := [])
    else
      s.(nIdle := s.nIdle + 1, threads := s.threads[t := Asleep])
  }

  predicate Returns(s: State, t: nat) {
    s.queue == [] && t == 0 && s.nTodo == 0
  }

  function NotifyAll(threads: seq<Thread>): (r: seq<Thread>)
    ensures |r| == |threads|
    ensures forall t :: 0 <= t < |threads| ==> r[t] == if t > 0 && threads[t] == Asleep then Notified else threads[t]
  {
    seq(|threads|, t requires 0 <= t < |threads| => if t > 0 && threads[t] == Asleep then Notified else threads[t])
  }

  function NotifyOne(threads: seq<Thread>, who: nat): (r: seq<Thread>)
    ensures |r| == |threads|
  {
    if who < |threads| && threads[who] == Asleep then threads[who := Notified] else threads
  }

  function AddStep(s: State, checks: seq<Check>, who: nat): State {
    s.(queue := s.queue + checks, nTodo := s.nTodo + |checks|, added := s.added + checks,
       threads := if |checks| == 1 then NotifyOne(s.threads, who)
                  else if |checks| > 1 then NotifyAll(s.threads)
                  else s.threads)
  }

  /** The clean-up at the start of a critical section, before the queue is looked at. */
  function CleanUp(s: State, e: Event): State {
    match e
    case Enter(t) => s.(nTotal := s.nTotal + 1)
    case Wake(t) => s.(nIdle := s.nIdle - 1)
    case Finish(t) =>
      if t < |s.threads| && s.threads[t].Working? then
        var todo := s.nTodo - |s.threads[t].batch|;
        s.(allOk := s.allOk && s.threads[t].ok, nTodo := todo,
           threads := if todo == 0 && t != 0 then NotifyOne(s.threads, 0) else s.threads)
      else s
    case _ => s
  }

  predicate Enabled(s: State, e: Event) {
    match e
    case CallAdd(checks, who) =>
      && |s.threads| > 0 && s.threads[0] == Outside
      && 0 < who < |s.threads| + 1
      && ((exists w :: 0 < w < |s.threads| && s.threads[w] == Asleep) ==> who < |s.threads| && s.threads[who] == Asleep)
    case CallWait => |s.threads| > 0 && s.threads[0] == Outside
    case StartWorker(t) => 0 < t < |s.threads| && s.threads[t] == Outside
    case Enter(t) => t < |s.threads| && s.threads[t] == Starting
    case Wake(t) => t < |s.threads| && s.threads[t] == Notified
    case Evaluate(t) => t < |s.threads| && s.threads[t].Working? && s.threads[t].done < |s.threads[t].batch|
    case Finish(t) => t < |s.threads| && s.threads[t].Working? && s.threads[t].done == |s.threads[t].batch|
    case Spurious(t) => t < |s.threads| && s.threads[t] == Asleep
  }

  /** One check is run, or skipped when an earlier one failed. */
  function Visit(w: Thread): Thread
    requires w.Working? && w.done < |w.batch|
  {
    w.(done := w.done + 1, ok := if w.ok then w.batch[w.done].verdict else w.ok)
  }

  function Step(limit: nat, s: State, e: Event): State
    requires Enabled(s, e)
  {
    match e
    case CallAdd(checks, who) => AddStep(s, checks, who)
    case CallWait => s.(threads := s.threads[0 := Starting])
    case StartWorker(t) => s.(threads := s.threads[t := Starting])
    case Enter(t) => AtQueue(limit, CleanUp(s, e), t)
    case Wake(t) => AtQueue(limit, CleanUp(s, e), t)
    case Finish(t) => AtQueue(limit, CleanUp(s, e), t)
    case Evaluate(t) => s.(threads := s.threads[t := Visit(s.threads[t])])
    case Spurious(t) => s.(threads := s.threads[t := Notified])
  }

  // ----- sums over the threads -----

  function Load(w: Thread): nat {
    if w.Working? then |w.batch| else 0
  }

  ghost function Bag(w: Thread): multiset<Check> {
    if w.Working? then multiset(w.batch) else multiset{}
  }

  function InFlight(ts: seq<Thread>): nat {
    if ts == [] then 0 else InFlight(ts[..|ts| - 1]) + Load(ts[|ts| - 1])
  }

  ghost function Held(ts: seq<Thread>): multiset<Check> {
    if ts == [] then multiset{} else Held(ts[..|ts| - 1]) + Bag(ts[|ts| - 1])
  }

  function Count(ts: seq<Thread>, p: Thread -> bool): nat {
    if ts == [] then 0 else Count(ts[..|ts| - 1], p) + if p(ts[|ts| - 1]) then 1 else 0
  }

  lemma {:induction false} UpdateInFlight(ts: seq<Thread>, t: nat, w: Thread)
    requires t < |ts|
    ensures InFlight(ts[t := w]) + Load(ts[t]) == InFlight(ts) + Load(w)
  {
    var n := |ts| - 1;
    if t == n {
      assert ts[t := w][..n] == ts[..n];
    } else {
      assert ts[t := w][..n] == ts[..n][t := w];
      UpdateInFlight(ts[..n], t, w);
    }
  }

  lemma {:induction false} UpdateHeld(ts: seq<Thread>, t: nat, w: Thread)
    requires t < |ts|
    ensures Held(ts[t := w]) + Bag(ts[t]) == Held(ts) + Bag(w)
  {
    var n := |ts| - 1;
    if t == n {
      assert ts[t := w][..n] == ts[..n];
      assert Held(ts[..n]) + Bag(w) + Bag(ts[t]) == Held(ts[..n]) + Bag(ts[t]) + Bag(w);
    } else {
      assert ts[t := w][..n] == ts[..n][t := w];
      UpdateHeld(ts[..n], t, w);
      Exchange(Held(ts[..n]), Held(ts[..n][t := w]), Bag(ts[t]), Bag(w), Bag(ts[n]));
    }
  }

  lemma {:induction false} UpdateCount(ts: seq<Thread>, t: nat, w: Thread, p: Thread -> bool)
    requires t < |ts|
    ensures Count(ts[t := w], p) == Count(ts, p) - (if p(ts[t]) then 1 else 0) + (if p(w) then 1 else 0)
  {
    var n := |ts| - 1;
    if t == n {
      assert ts[t := w][..n] == ts[..n];
    } else {
      assert ts[t := w][..n] == ts[..n][t := w];
      UpdateCount(ts[..n], t, w, p);
    }
  }

  predicate InLoop(w: Thread) { w.Asleep? || w.Notified? || w.Working? }

  predicate Waiting(w: Thread) { w.Asleep? || w.Notified? }

  /** Waking threads up changes no sum. */
  lemma {:induction false} WakingKeepsSums(ts: seq<Thread>, ts': seq<Thread>)
    requires |ts| == |ts'|
    requires forall t :: 0 <= t < |ts| ==> ts'[t] == ts[t] || (ts[t] == Asleep && ts'[t] == Notified)
    ensures InFlight(ts') == InFlight(ts) && Held(ts') == Held(ts)
    ensures Count(ts', InLoop) == Count(ts, InLoop) && Count(ts', Waiting) == Count(ts, Waiting)
  {
    if ts != [] {
      var n := |ts| - 1;
      assert ts'[n] == ts[n] || (ts[n] == Asleep && ts'[n] == Notified);
      WakingKeepsSums(ts[..n], ts'[..n]);
    }
  }

  // ----- the invariant -----

  ghost predicate TodoExact(s: State) {
    s.nTodo == |s.queue| + InFlight(s.threads)
  }

  /** `nTotal` and `nIdle` count the threads in the loop and the threads waiting; `entering` is the
      number of threads that are counted but have not settled yet. */
  ghost predicate CountsExact(s: State, entering: nat) {
    s.nTotal == Count(s.threads, InLoop) + entering && s.nIdle == Count(s.threads, Waiting)
  }

  ghost predicate SomeFails(checks: seq<Check>) {
    exists i :: 0 <= i < |checks| && !checks[i].verdict
  }

  ghost predicate AllPass(b: multiset<Check>) {
    forall c :: c in b ==> c.verdict
  }

  ghost predicate BatchSound(w: Thread, added: seq<Check>) {
    w.Working? ==>
      && 0 < |w.batch| && w.done <= |w.batch|
      && (w.ok ==> forall i :: 0 <= i < w.done ==> w.batch[i].verdict)
      && (!w.ok ==> SomeFails(added))
  }

  ghost predicate BatchesSound(s: State) {
    forall t :: 0 <= t < |s.threads| ==> BatchSound(s.threads[t], s.added)
  }

  /** What the shared verdict means: every check that is neither queued nor held by a thread has been
      accounted for. */
  ghost predicate VerdictSound(s: State) {
    && multiset(s.queue) + Held(s.threads) <= multiset(s.added)
    && (s.allOk ==> AllPass(multiset(s.added) - (multiset(s.queue) + Held(s.threads))))
    && (!s.allOk ==> SomeFails(s.added))
  }

  /** A master that sleeps has work to wait for, and none of it is in the queue. */
  ghost predicate NoLostWakeup(s: State) {
    |s.threads| > 0 && s.threads[0] == Asleep ==> s.queue == [] && s.nTodo > 0
  }

  ghost predicate Sane(s: State, entering: nat) {
    && |s.threads| > 0
    && TodoExact(s)
    && CountsExact(s, entering)
    && BatchesSound(s)
    && VerdictSound(s)
    && NoLostWakeup(s)
  }

  ghost predicate Inv(s: State) { Sane(s, 0) }

  ghost predicate Init(s: State) {
    && |s.threads| > 0 && (forall t :: 0 <= t < |s.threads| ==> s.threads[t] == Outside)
    && s.queue == [] && s.nIdle == 0 && s.nTotal == 0 && s.allOk && s.nTodo == 0 && s.added == []
  }

  lemma {:induction false} OutsideSums(ts: seq<Thread>)
    requires forall t :: 0 <= t < |ts| ==> ts[t] == Outside
    ensures InFlight(ts) == 0 && Held(ts) == multiset{} && Count(ts, InLoop) == 0 && Count(ts, Waiting) == 0
  {
    if ts != [] {
      OutsideSums(ts[..|ts| - 1]);
    }
  }

  lemma InitInv(s: State)
    requires Init(s)
    ensures Inv(s)
  {
    OutsideSums(s.threads);
  }

  // ----- preservation -----

  /** The state in the middle of a critical section of thread `t`: the clean-up is done and the thread
      holds nothing. */
  ghost function Middle(s: State, e: Event, t: nat): State
    requires t < |s.threads|
  {
    var s1 := CleanUp(s, e);
    s1.(threads := s1.threads[t := Starting])
  }

  /** Replacing a thread that holds no batch by another such thread keeps everything but the counts. */
  lemma SwapIdle(s: State, t: nat, w: Thread)
    requires |s.threads| > 0 && t < |s.threads| && !s.threads[t].Working? && !w.Working?
    requires TodoExact(s) && BatchesSound(s) && VerdictSound(s)
    ensures var s' := s.(threads := s.threads[t := w]); TodoExact(s') && BatchesSound(s') && VerdictSound(s')
  {
    UpdateInFlight(s.threads, t, w);
    UpdateHeld(s.threads, t, w);
    EmptyBag(Held(s.threads[t := w]));
    EmptyBag(Held(s.threads));
    assert Held(s.threads[t := w]) == Held(s.threads);
  }

  lemma MiddleEnter(s: State, t: nat)
    requires Inv(s) && t < |s.threads| && s.threads[t] == Starting
    ensures Sane(Middle(s, Enter(t), t), 1)
  {
    assert s.threads[t := Starting] == s.threads;
  }

  lemma MiddleWake(s: State, t: nat)
    requires Inv(s) && t < |s.threads| && s.threads[t] == Notified
    ensures Sane(Middle(s, Wake(t), t), 1)
  {
    SwapIdle(s, t, Starting);
    UpdateCount(s.threads, t, Starting, InLoop);
    UpdateCount(s.threads, t, Starting, Waiting);
  }

  /** The verdict after a thread hands in a finished batch. */
  lemma HandIn(s: State, t: nat)
    requires TodoExact(s) && VerdictSound(s) && BatchesSound(s)
    requires t < |s.threads| && s.threads[t].Working? && s.threads[t].done == |s.threads[t].batch|
    ensures var w := s.threads[t];
            var s' := s.(allOk := s.allOk && w.ok, nTodo := s.nTodo - |w.batch|, threads := s.threads[t := Starting]);
            TodoExact(s') && VerdictSound(s') && BatchesSound(s')
  {
    var w := s.threads[t];
    UpdateInFlight(s.threads, t, Starting);
    UpdateHeld(s.threads, t, Starting);
    var h, h' := Held(s.threads), Held(s.threads[t := Starting]);
    EmptyBag(h);
    assert h' + multiset(w.batch) == h;
    assert BatchSound(w, s.added);
    HandInBag(multiset(s.added), multiset(s.queue), h, h', w.batch);
  }

  lemma HandInBag(added: multiset<Check>, queue: multiset<Check>, h: multiset<Check>, h': multiset<Check>,
                  batch: seq<Check>)
    requires queue + h <= added && h' + multiset(batch) == h
    ensures queue + h' <= added
    ensures AllPass(added - (queue + h)) && (forall i :: 0 <= i < |batch| ==> batch[i].verdict)
            ==> AllPass(added - (queue + h'))
  {
    assert added - (queue + h') == (added - (queue + h)) + multiset(batch);
    forall c | c in multiset(batch) ensures exists i :: 0 <= i < |batch| && batch[i] == c {
      assert c in batch;
    }
  }

  lemma MiddleFinish(s: State, t: nat)
    requires Inv(s) && t < |s.threads| && s.threads[t].Working? && s.threads[t].done == |s.threads[t].batch|
    ensures Sane(Middle(s, Finish(t), t), 1)
  {
    var w := s.threads[t];
    HandIn(s, t);
    var s' := s.(allOk := s.allOk && w.ok, nTodo := s.nTodo - |w.batch|, threads := s.threads[t := Starting]);
    UpdateCount(s.threads, t, Starting, InLoop);
    UpdateCount(s.threads, t, Starting, Waiting);
    FinishNotifies(s, t, s', Middle(s, Finish(t), t));
  }

  lemma FinishNotifies(s: State, t: nat, s': State, m: State)
    requires |s.threads| > 0 && t < |s.threads| && s.threads[t].Working? && NoLostWakeup(s)
    requires TodoExact(s') && CountsExact(s', 1) && VerdictSound(s') && BatchesSound(s')
    requires s' == s.(allOk := s.allOk && s.threads[t].ok, nTodo := s.nTodo - |s.threads[t].batch|,
                      threads := s.threads[t := Starting])
    requires m == Middle(s, Finish(t), t)
    ensures Sane(m, 1)
  {
    if s'.nTodo == 0 && t != 0 {
      assert m.threads == NotifyOne(s'.threads, 0);
      WakingKeepsSums(s'.threads, m.threads);
    } else {
      assert m == s';
    }
  }

  lemma TakeBatch(limit: nat, s: State, t: nat)
    requires Sane(s, 1) && t < |s.threads| && s.threads[t] == Starting && s.queue != []
    ensures Inv(AtQueue(limit, s, t))
  {
    var s' := AtQueue(limit, s, t);
    var w := s'.threads[t];
    var n := |w.batch|;
    UpdateInFlight(s.threads, t, w);
    UpdateHeld(s.threads, t, w);
    UpdateCount(s.threads, t, w, InLoop);
    UpdateCount(s.threads, t, w, Waiting);
    EmptyBag(Held(s'.threads));
    PoppedBag(s.queue, n);
    TakeBag(multiset(s.queue), multiset(s'.queue), multiset(w.batch), Held(s.threads), Held(s'.threads));
    assert BatchSound(w, s.added);
  }

  lemma TakeBag(q: multiset<Check>, q': multiset<Check>, b: multiset<Check>, h: multiset<Check>, h': multiset<Check>)
    requires q == q' + b && h' == h + b
    ensures q' + h' == q + h
  {
  }

  lemma {:induction false} NothingInFlight(ts: seq<Thread>)
    requires InFlight(ts) == 0
    ensures Held(ts) == multiset{}
    ensures forall t :: 0 <= t < |ts| ==> Load(ts[t]) == 0
  {
    if ts != [] {
      NothingInFlight(ts[..|ts| - 1]);
      forall t | 0 <= t < |ts| ensures Load(ts[t]) == 0 {
        if t < |ts| - 1 {
          assert ts[t] == ts[..|ts| - 1][t];
        }
      }
    }
  }

  /** What `Wait` returns: true exactly when every check added since the previous `Wait` passes, and by
      then none of them is queued or held by a thread. */
  lemma VerdictExact(s: State)
    requires Sane(s, 1) && Returns(s, 0)
    ensures InFlight(s.threads) == 0
    ensures s.allOk <==> forall i :: 0 <= i < |s.added| ==> s.added[i].verdict
  {
    NothingInFlight(s.threads);
    assert multiset(s.added) - (multiset(s.queue) + Held(s.threads)) == multiset(s.added);
    forall i | 0 <= i < |s.added| ensures s.added[i] in multiset(s.added) {
    }
  }

  lemma ReturnFromWait(limit: nat, s: State)
    requires Sane(s, 1) && 0 < |s.threads| && s.threads[0] == Starting && Returns(s, 0)
    ensures Inv(AtQueue(limit, s, 0))
  {
    var s' := AtQueue(limit, s, 0);
    NothingInFlight(s.threads);
    forall t | 0 <= t < |s.threads| ensures !s.threads[t].Working? {
      assert BatchSound(s.threads[t], s.added);
    }
    UpdateInFlight(s.threads, 0, Outside);
    UpdateHeld(s.threads, 0, Outside);
    EmptyBag(Held(s'.threads));
    UpdateCount(s.threads, 0, Outside, InLoop);
    UpdateCount(s.threads, 0, Outside, Waiting);
  }

  lemma FallAsleep(limit: nat, s: State, t: nat)
    requires Sane(s, 1) && t < |s.threads| && s.threads[t] == Starting && s.queue == [] && !Returns(s, t)
    ensures Inv(AtQueue(limit, s, t))
  {
    SwapIdle(s, t, Asleep);
    UpdateCount(s.threads, t, Asleep, InLoop);
    UpdateCount(s.threads, t, Asleep, Waiting);
  }

  /** What a thread was before does not matter at the queue. */
  lemma AtQueueForgets(limit: nat, s: State, t: nat, w: Thread)
    requires t < |s.threads|
    ensures AtQueue(limit, s.(threads := s.threads[t := w]), t) == AtQueue(limit, s, t)
  {
    var ts := s.threads[t := w];
    if s.queue != [] {
      var x := Working(Popped(s.queue, BatchSize(limit, |s.queue|, s.nTotal, s.nIdle)), 0, s.allOk);
      assert ts[t := x] == s.threads[t := x];
    } else {
      assert ts[t := Outside] == s.threads[t := Outside];
      assert ts[t := Asleep] == s.threads[t := Asleep];
    }
  }

  lemma AtQueueInv(limit: nat, s: State, e: Event, t: nat)
    requires t < |s.threads| && Sane(Middle(s, e, t), 1)
    ensures Inv(AtQueue(limit, CleanUp(s, e), t))
  {
    var m := Middle(s, e, t);
    AtQueueForgets(limit, CleanUp(s, e), t, Starting);
    if m.queue != [] {
      TakeBatch(limit, m, t);
    } else if Returns(m, t) {
      ReturnFromWait(limit, m);
    } else {
      FallAsleep(limit, m, t);
    }
  }

  lemma AddInv(s: State, checks: seq<Check>, who: nat)
    requires Inv(s) && s.threads[0] == Outside && who > 0
    ensures Inv(AddStep(s, checks, who))
  {
    var s' := AddStep(s, checks, who);
    WakingKeepsSums(s.threads, s'.threads);
    AddBag(multiset(s.added), multiset(s.queue), multiset(checks), Held(s.threads));
    assert multiset(s'.added) == multiset(s.added) + multiset(checks);
    assert multiset(s'.queue) == multiset(s.queue) + multiset(checks);
    MoreAdded(s, checks);
    forall t | 0 <= t < |s'.threads| ensures BatchSound(s'.threads[t], s'.added) {
      assert BatchSound(s.threads[t], s'.added);
    }
  }

  lemma AddBag(a: multiset<Check>, q: multiset<Check>, c: multiset<Check>, h: multiset<Check>)
    requires q + h <= a
    ensures (q + c) + h <= a + c && (a + c) - ((q + c) + h) == a - (q + h)
  {
  }

  lemma MoreAdded(s: State, checks: seq<Check>)
    requires BatchesSound(s)
    ensures SomeFails(s.added) ==> SomeFails(s.added + checks)
    ensures forall t :: 0 <= t < |s.threads| ==> BatchSound(s.threads[t], s.added + checks)
  {
    if SomeFails(s.added) {
      var i :| 0 <= i < |s.added| && !s.added[i].verdict;
      assert !(s.added + checks)[i].verdict;
    }
    forall t | 0 <= t < |s.threads| ensures BatchSound(s.threads[t], s.added + checks) {
      assert BatchSound(s.threads[t], s.added);
    }
  }

  lemma EvaluateInv(s: State, t: nat)
    requires Inv(s) && Enabled(s, Evaluate(t))
    ensures Inv(s.(threads := s.threads[t := Visit(s.threads[t])]))
  {
    VisitSums(s, t);
    VisitSound(s, t);
  }

  lemma VisitSound(s: State, t: nat)
    requires VerdictSound(s) && BatchesSound(s) && Enabled(s, Evaluate(t))
    ensures BatchSound(Visit(s.threads[t]), s.added)
  {
    var w := s.threads[t];
    assert BatchSound(w, s.added);
    HeldIsAdded(s, t, w.done);
  }

  lemma VisitSums(s: State, t: nat)
    requires Enabled(s, Evaluate(t))
    ensures var ts' := s.threads[t := Visit(s.threads[t])];
            && InFlight(ts') == InFlight(s.threads) && Held(ts') == Held(s.threads)
            && Count(ts', InLoop) == Count(s.threads, InLoop) && Count(ts', Waiting) == Count(s.threads, Waiting)
  {
    var w := s.threads[t];
    var w' := Visit(w);
    UpdateInFlight(s.threads, t, w');
    UpdateHeld(s.threads, t, w');
    Cancel(Held(s.threads[t := w']), Held(s.threads), Bag(w));
    UpdateCount(s.threads, t, w', InLoop);
    UpdateCount(s.threads, t, w', Waiting);
  }

  /** A check in a batch was added since the last `Wait`. */
  lemma HeldIsAdded(s: State, t: nat, i: nat)
    requires VerdictSound(s) && t < |s.threads| && s.threads[t].Working? && i < |s.threads[t].batch|
    ensures s.threads[t].batch[i] in s.added
  {
    var w := s.threads[t];
    UpdateHeld(s.threads, t, Starting);
    EmptyBag(Held(s.threads));
    assert w.batch[i] in multiset(w.batch);
    assert w.batch[i] in Held(s.threads);
    assert w.batch[i] in multiset(s.added);
  }

  lemma OtherInv(s: State, t: nat, w: Thread)
    requires Inv(s) && t < |s.threads|
    requires (s.threads[t] == Outside && w == Starting) || (s.threads[t] == Asleep && w == Notified)
    ensures Inv(s.(threads := s.threads[t := w]))
  {
    SwapIdle(s, t, w);
    UpdateCount(s.threads, t, w, InLoop);
    UpdateCount(s.threads, t, w, Waiting);
  }

  /** Every step of every thread keeps the invariant. */
  lemma StepInv(limit: nat, s: State, e: Event)
    requires Inv(s) && Enabled(s, e)
    ensures Inv(Step(limit, s, e))
  {
    match e
    case CallAdd(checks, who) => AddInv(s, checks, who);
    case CallWait => OtherInv(s, 0, Starting);
    case StartWorker(t) => OtherInv(s, t, Starting);
    case Enter(t) => MiddleEnter(s, t); AtQueueInv(limit, s, e, t);
    case Wake(t) => MiddleWake(s, t); AtQueueInv(limit, s, e, t);
    case Finish(t) => MiddleFinish(s, t); AtQueueInv(limit, s, e, t);
    case Evaluate(t) => EvaluateInv(s, t);
    case Spurious(t) => OtherInv(s, t, Notified);
  }

  // ----- runs -----

  /** The step in which the master's `Wait` returns. */
  ghost predicate EndsWait(s: State, e: Event) {
    (e == Enter(0) || e == Wake(0) || e == Finish(0)) && Enabled(s, e) && Returns(CleanUp(s, e), 0)
  }

  lemma AtReturn(s: State, e: Event)
    requires Inv(s) && EndsWait(s, e)
    ensures Sane(Middle(s, e, 0), 1) && Returns(Middle(s, e, 0), 0)
  {
    match e
    case Enter(_) => MiddleEnter(s, 0);
    case Wake(_) => MiddleWake(s, 0);
    case Finish(_) => MiddleFinish(s, 0);
  }

  lemma ReturnIsExact(limit: nat, s: State, e: Event)
    requires Inv(s) && EndsWait(s, e)
    ensures CleanUp(s, e).allOk <==> forall j :: 0 <= j < |s.added| ==> s.added[j].verdict
    ensures var s' := Step(limit, s, e); s'.queue == [] && InFlight(s'.threads) == 0 && s'.nTodo == 0
  {
    AtReturn(s, e);
    VerdictExact(Middle(s, e, 0));
    AtQueueForgets(limit, CleanUp(s, e), 0, Starting);
    UpdateInFlight(Middle(s, e, 0).threads, 0, Outside);
  }

  ghost predicate Run(limit: nat, states: seq<State>, events: seq<Event>) {
    && |states| == |events| + 1
    && forall i :: 0 <= i < |events| ==>
         Enabled(states[i], events[i]) && states[i + 1] == Step(limit, states[i], events[i])
  }

  lemma {:induction false} RunInv(limit: nat, states: seq<State>, events: seq<Event>, i: nat)
    requires Run(limit, states, events) && Inv(states[0]) && i < |states|
    ensures Inv(states[i])
  {
    if i > 0 {
      RunInv(limit, states, events, i - 1);
      StepInv(limit, states[i - 1], events[i - 1]);
    }
  }

  /** The checks passed to `Add` before event `i`, since the last `Wait` that returned. */
  ghost function AddedSince(states: seq<State>, events: seq<Event>, i: nat): seq<Check>
    requires i <= |events| < |states|
  {
    if i == 0 || EndsWait(states[i - 1], events[i - 1]) then []
    else AddedSince(states, events, i - 1) + if events[i - 1].CallAdd? then events[i - 1].checks else []
  }

  lemma StepAdds(limit: nat, s: State, e: Event)
    requires Enabled(s, e)
    ensures Step(limit, s, e).added
              == if EndsWait(s, e) then [] else s.added + if e.CallAdd? then e.checks else []
  {
    assert s.added + [] == s.added;
  }

  lemma {:induction false} AddedIsHistory(limit: nat, states: seq<State>, events: seq<Event>, i: nat)
    requires Run(limit, states, events) && states[0].added == [] && i <= |events|
    ensures states[i].added == AddedSince(states, events, i)
  {
    if i > 0 {
      AddedIsHistory(limit, states, events, i - 1);
      StepAdds(limit, states[i - 1], events[i - 1]);
    }
  }

  /** The result of `Wait` in any run of any number of workers: when it returns, every check added since
      the previous `Wait` is accounted for, and the result is true exactly when all of them pass, even
      though threads skip checks after a failure. */
  lemma WaitIsExact(limit: nat, states: seq<State>, events: seq<Event>, i: nat)
    requires Run(limit, states, events) && Init(states[0]) && i < |events| && EndsWait(states[i], events[i])
    ensures var result := CleanUp(states[i], events[i]).allOk;
            result <==> forall j :: 0 <= j < |AddedSince(states, events, i)| ==>
                          AddedSince(states, events, i)[j].verdict
    ensures states[i + 1].queue == [] && InFlight(states[i + 1].threads) == 0 && states[i + 1].nTodo == 0
  {
    InitInv(states[0]);
    RunInv(limit, states, events, i);
    ReturnIsExact(limit, states[i], events[i]);
    AddedIsHistory(limit, states, events, i);
  }

  /** Once a check has failed, the checks of every batch that is taken before `Wait` returns are skipped. */
  lemma SkippedAfterFailure(limit: nat, s: State, e: Event, t: nat)
    requires Enabled(s, e) && (e == Enter(t) || e == Wake(t) || e == Finish(t)) && t < |s.threads|
    requires s.queue != [] && !CleanUp(s, e).allOk
    ensures var w := Step(limit, s, e).threads[t];
            w.Working? && w.done == 0 && !w.ok && (w.batch != [] ==> !Visit(w).ok) && !Step(limit, s, e).allOk
  {
  }

  // ----- no wake-up of a worker is lost -----

  ghost predicate SomeInLoop(ts: seq<Thread>) {
    exists t :: 0 < t < |ts| && InLoop(ts[t])
  }

  ghost predicate SomeAwake(ts: seq<Thread>) {
    exists t :: 0 < t < |ts| && (ts[t].Notified? || ts[t].Starting? || ts[t].Working?)
  }

  /** While checks are queued, not all workers sleep. */
  ghost predicate WorkerAwake(s: State) {
    s.queue != [] && SomeInLoop(s.threads) ==> SomeAwake(s.threads)
  }

  lemma AddWakes(s: State, checks: seq<Check>, who: nat)
    requires Enabled(s, CallAdd(checks, who)) && WorkerAwake(s)
    ensures WorkerAwake(AddStep(s, checks, who))
  {
    var s' := AddStep(s, checks, who);
    if s'.queue != [] && SomeInLoop(s'.threads) && checks != [] {
      var t :| 0 < t < |s'.threads| && InLoop(s'.threads[t]);
      if s.threads[t].Asleep? {
        var u := if |checks| == 1 then who else t;
        assert s'.threads[u].Notified?;
      } else {
        assert s'.threads[t] == s.threads[t];
      }
    }
  }

  /** After adding two checks or more no worker sleeps; after adding one, only one worker is woken. */
  lemma AddWakesEnough(s: State, checks: seq<Check>, who: nat)
    requires Enabled(s, CallAdd(checks, who))
    ensures var ts := AddStep(s, checks, who).threads;
            && |ts| == |s.threads|
            && (|checks| > 1 ==> forall t :: 0 < t < |ts| ==> !ts[t].Asleep?)
            && (|checks| == 1 ==> forall t :: 0 < t < |ts| && t != who ==> ts[t] == s.threads[t])
            && (|checks| == 1 && (exists t :: 0 < t < |ts| && s.threads[t].Asleep?) ==> who < |ts| && ts[who].Notified?)
  {
  }

  lemma AtQueueAwake(limit: nat, s: State, e: Event, t: nat)
    requires WorkerAwake(s) && Enabled(s, e) && t < |s.threads|
    requires e == Enter(t) || e == Wake(t) || e == Finish(t)
    ensures WorkerAwake(Step(limit, s, e))
  {
    var s' := Step(limit, s, e);
    if s'.queue != [] && SomeInLoop(s'.threads) {
      if t > 0 {
        assert s'.threads[t].Working?;
      } else {
        assert forall u :: 0 < u < |s.threads| ==> s'.threads[u] == s.threads[u];
        var u :| 0 < u < |s'.threads| && InLoop(s'.threads[u]);
        assert InLoop(s.threads[u]);
        var v :| 0 < v < |s.threads| && (s.threads[v].Notified? || s.threads[v].Starting? || s.threads[v].Working?);
        assert s'.threads[v] == s.threads[v];
      }
    }
  }

  lemma OtherAwake(s: State, t: nat, w: Thread)
    requires WorkerAwake(s) && t < |s.threads| && (w.Notified? || w.Starting? || w.Working?)
    ensures WorkerAwake(s.(threads := s.threads[t := w]))
  {
    var ts := s.threads[t := w];
    if s.queue != [] && SomeInLoop(ts) {
      if t > 0 {
        assert ts[t] == w;
      } else {
        var u :| 0 < u < |ts| && InLoop(ts[u]);
        assert InLoop(s.threads[u]);
        var v :| 0 < v < |s.threads| && (s.threads[v].Notified? || s.threads[v].Starting? || s.threads[v].Working?);
        assert ts[v] == s.threads[v];
      }
    }
  }

  lemma StepAwake(limit: nat, s: State, e: Event)
    requires WorkerAwake(s) && Enabled(s, e)
    ensures WorkerAwake(Step(limit, s, e))
  {
    match e
    case CallAdd(checks, who) => AddWakes(s, checks, who);
    case CallWait => OtherAwake(s, 0, Starting);
    case StartWorker(t) => OtherAwake(s, t, Starting);
    case Enter(t) => AtQueueAwake(limit, s, e, t);
    case Wake(t) => AtQueueAwake(limit, s, e, t);
    case Finish(t) => AtQueueAwake(limit, s, e, t);
    case Evaluate(t) => OtherAwake(s, t, Visit(s.threads[t]));
    case Spurious(t) => OtherAwake(s, t, Notified);
  }

  lemma {:induction false} RunAwake(limit: nat, states: seq<State>, events: seq<Event>, i: nat)
    requires Run(limit, states, events) && Init(states[0]) && i < |states|
    ensures WorkerAwake(states[i])
  {
    if i > 0 {
      RunAwake(limit, states, events, i - 1);
      StepAwake(limit, states[i - 1], events[i - 1]);
    }
  }

  /** In every state of every run in which checks are queued and some worker has started, some worker is awake and
      can go on without any help of the master. */
  lemma WorkersProceed(limit: nat, states: seq<State>, events: seq<Event>, i: nat) returns (e: Event)
    requires Run(limit, states, events) && Init(states[0]) && i < |states|
    requires states[i].queue != [] && SomeInLoop(states[i].threads)
    ensures SomeAwake(states[i].threads)
    ensures Enabled(states[i], e) && (e.Enter? || e.Wake? || e.Evaluate? || e.Finish?) && e.t > 0
  {
    InitInv(states[0]);
    RunInv(limit, states, events, i);
    RunAwake(limit, states, events, i);
    var s := states[i];
    var t: nat :| 0 < t < |s.threads| && (s.threads[t].Notified? || s.threads[t].Starting? || s.threads[t].Working?);
    assert BatchSound(s.threads[t], s.added);
    match s.threads[t]
    case Starting => e := Enter(t);
    case Notified => e := Wake(t);
    case Working(batch, done, ok) => e := if done < |batch| then Evaluate(t) else Finish(t);
  }

  // ----- progress -----

  ghost predicate InWait(s: State) {
    |s.threads| > 0 && s.threads[0] != Outside
  }

  lemma {:induction false} SomeoneWorks(ts: seq<Thread>) returns (t: nat)
    requires InFlight(ts) > 0
    ensures t < |ts| && ts[t].Working?
  {
    if ts[|ts| - 1].Working? {
      t := |ts| - 1;
    } else {
      t := SomeoneWorks(ts[..|ts| - 1]);
    }
  }

  /** No wake-up is lost: while the master is inside `Wait` some thread can take a step without any
      spurious wake-up, and a master that sleeps un-notified waits for a batch that a worker holds. */
  lemma WaitCanProceed(s: State) returns (e: Event)
    requires Inv(s) && InWait(s)
    ensures Enabled(s, e) && (e.Enter? || e.Wake? || e.Evaluate? || e.Finish?)
    ensures s.threads[0] == Asleep ==> s.queue == [] && (e.Evaluate? || e.Finish?) && e.t != 0
  {
    var t := 0;
    if s.threads[0] == Asleep {
      t := SomeoneWorks(s.threads);
    }
    assert BatchSound(s.threads[t], s.added);
    match s.threads[t]
    case Starting => e := Enter(t);
    case Notified => e := Wake(t);
    case Working(batch, done, ok) => e := if done < |batch| then Evaluate(t) else Finish(t);
  }

  function Weight(w: Thread): nat {
    match w
    case Outside => 4
    case Starting => 3
    case Notified => 3
    case Asleep => 0
    case Working(batch, done, ok) => 4 + if done < |batch| then |batch| - done else 0
  }

  function Weights(ts: seq<Thread>): nat {
    if ts == [] then 0 else Weights(ts[..|ts| - 1]) + Weight(ts[|ts| - 1])
  }

  /** What is left to do before `Wait` returns. */
  function Measure(s: State): nat {
    8 * |s.queue| + Weights(s.threads)
  }

  lemma {:induction false} UpdateWeights(ts: seq<Thread>, t: nat, w: Thread)
    requires t < |ts|
    ensures Weights(ts[t := w]) + Weight(ts[t]) == Weights(ts) + Weight(w)
  {
    var n := |ts| - 1;
    if t == n {
      assert ts[t := w][..n] == ts[..n];
    } else {
      assert ts[t := w][..n] == ts[..n][t := w];
      UpdateWeights(ts[..n], t, w);
    }
  }

  lemma AtQueueWeight(limit: nat, s: State, t: nat)
    requires t < |s.threads| && !Returns(s, t)
    ensures s.queue != [] ==> Measure(AtQueue(limit, s, t)) + Weight(s.threads[t]) < Measure(s)
    ensures s.queue == [] ==> Measure(AtQueue(limit, s, t)) + Weight(s.threads[t]) == Measure(s)
  {
    UpdateWeights(s.threads, t, AtQueue(limit, s, t).threads[t]);
  }

  /** Inside `Wait`, every step other than a spurious wake-up brings the return closer. */
  lemma StepBringsReturnCloser(limit: nat, s: State, e: Event)
    requires Inv(s) && InWait(s) && Enabled(s, e) && !e.Spurious? && InWait(Step(limit, s, e))
    ensures Measure(Step(limit, s, e)) < Measure(s)
  {
    match e
    case StartWorker(t) => UpdateWeights(s.threads, t, Starting);
    case Enter(t) => AtQueueWeight(limit, CleanUp(s, e), t);
    case Wake(t) => AtQueueWeight(limit, CleanUp(s, e), t);
    case Evaluate(t) => UpdateWeights(s.threads, t, Visit(s.threads[t]));
    case Finish(t) =>
      UpdateWeights(s.threads, 0, Notified);
      AtQueueWeight(limit, CleanUp(s, e), t);
  }

  lemma {:induction false} StepsInWait(limit: nat, states: seq<State>, events: seq<Event>, n: nat)
    requires Run(limit, states, events) && Inv(states[0]) && n < |states|
    requires forall i :: 0 <= i < n ==> !events[i].Spurious?
    requires forall i :: 0 <= i <= n ==> InWait(states[i])
    ensures n + Measure(states[n]) <= Measure(states[0])
  {
    if n > 0 {
      StepsInWait(limit, states, events, n - 1);
      RunInv(limit, states, events, n - 1);
      StepBringsReturnCloser(limit, states[n - 1], events[n - 1]);
    }
  }

  /** `Wait` terminates: a run without spurious wake-ups that starts inside `Wait` and is longer than
      the measure of its first state contains the return.  (By `WaitCanProceed` it can always go on.) */
  lemma WaitTerminates(limit: nat, states: seq<State>, events: seq<Event>)
    requires Run(limit, states, events) && Inv(states[0])
    requires forall i :: 0 <= i < |events| ==> !events[i].Spurious?
    requires |events| > Measure(states[0])
    ensures exists i :: 0 <= i < |states| && !InWait(states[i])
  {
    if forall i :: 0 <= i < |states| ==> InWait(states[i]) {
      StepsInWait(limit, states, events, |events|);
      assert false;
    }
  }
}
