/** The ticket spinlock (kernel/src/Spinlock.cpp) as an interleaved protocol: every atomic access of Acquire and Release
    is one step, taken by any thread at any time. Its specification is a FIFO queue of threads. */
module TicketLock {

  const TICKETS: nat := 0x1_0000_0000

  /** Unsigned 32-bit arithmetic. */
  function Wrap(n: nat): (r: nat)
    ensures r < TICKETS
  {
    n % TICKETS
  }

  /** Where a thread is; the ticket and the loaded value are its registers. */
  datatype Thread =
    | Idle
    | Spinning(ticket: nat)
    | Critical(ticket: nat)
    | Releasing(ticket: nat, current: nat)
  {
    /** From the successful spin load up to the release store. */
    predicate Inside() {
      Critical? || Releasing?
    }
  }

  datatype Lock = Lock(nextTicket: nat, servingTicket: nat, threads: seq<Thread>)

  datatype Event = FetchAdd(t: nat) | SpinLoad(t: nat) | ReleaseLoad(t: nat) | ReleaseStore(t: nat)

  /** One atomic access, with 32-bit wrap-around. */
  ghost predicate Step(s: Lock, e: Event, s': Lock) {
    && e.t < |s.threads|
    && var thread := s.threads[e.t];
       match e
       case FetchAdd(t) =>
         thread.Idle? && s' == Lock(Wrap(s.nextTicket + 1), s.servingTicket, s.threads[t := Spinning(s.nextTicket)])
       case SpinLoad(t) =>
         thread.Spinning? &&
         s' == if s.servingTicket == thread.ticket then s.(threads := s.threads[t := Critical(thread.ticket)]) else s
       case ReleaseLoad(t) =>
         thread.Critical? && s' == s.(threads := s.threads[t := Releasing(thread.ticket, s.servingTicket)])
       case ReleaseStore(t) =>
         thread.Releasing? && s' == Lock(s.nextTicket, Wrap(thread.current + 1), s.threads[t := Idle])
  }

  /** No thread holds a ticket yet; the counters may start anywhere as long as they agree. */
  ghost predicate Initial(s: Lock) {
    && s.nextTicket == s.servingTicket < TICKETS && |s.threads| <= TICKETS
    && forall t :: 0 <= t < |s.threads| ==> s.threads[t].Idle?
  }

  ghost predicate IsRun(states: seq<Lock>, events: seq<Event>) {
    && |states| == |events| + 1 && Initial(states[0])
    && forall i :: 0 <= i < |events| ==> Step(states[i], events[i], states[i + 1])
  }

  // ---- The abstract lock: a queue of threads in the order of their fetch-adds ----

  ghost function QueueAfter(queue: seq<nat>, e: Event): seq<nat> {
    match e
    case FetchAdd(t) => queue + [t]
    case ReleaseStore(t) => if queue == [] then [] else queue[1..]
    case _ => queue
  }

  /** The queue after the first `k` events of a run. */
  ghost function QueueAt(events: seq<Event>, k: nat): seq<nat>
    requires k <= |events|
  {
    if k == 0 then [] else QueueAfter(QueueAt(events, k - 1), events[k - 1])
  }

  /** The lock state means this queue: the outstanding tickets are exactly the modular interval from the serving to the
      next ticket, held in queue order, and only the head is inside. */
  ghost predicate Means(s: Lock, queue: seq<nat>) {
    && |s.threads| <= TICKETS && s.servingTicket < TICKETS
    && s.nextTicket == Wrap(s.servingTicket + |queue|)
    && (forall i :: 0 <= i < |queue| ==> queue[i] < |s.threads| && !s.threads[queue[i]].Idle?)
    && (forall i :: 0 <= i < |queue| ==> s.threads[queue[i]].ticket == Wrap(s.servingTicket + i))
    && (forall i, j :: 0 <= i < j < |queue| ==> queue[i] != queue[j])
    && (forall t :: 0 <= t < |s.threads| && !s.threads[t].Idle? ==> t in queue)
    && (forall i :: 0 < i < |queue| ==> s.threads[queue[i]].Spinning?)
    && forall t :: 0 <= t < |s.threads| && s.threads[t].Releasing? ==> s.threads[t].current == s.servingTicket
  }

  /** Distinct threads: no more of them than there are. */
  lemma {:induction false} QueueIsShort(queue: seq<nat>, n: nat)
    requires forall i :: 0 <= i < |queue| ==> queue[i] < n
    requires forall i, j :: 0 <= i < j < |queue| ==> queue[i] != queue[j]
    ensures |queue| <= n
    decreases n
  {
    if queue != [] {
      assert queue[0] < n;
      if n - 1 in queue {
        var k :| 0 <= k < |queue| && queue[k] == n - 1;
        var rest := queue[..k] + queue[k + 1..];
        assert forall i :: 0 <= i < |rest| ==> rest[i] == queue[if i < k then i else i + 1];
        QueueIsShort(rest, n - 1);
      } else {
        QueueIsShort(queue, n - 1);
      }
    }
  }

  /** Within one lap of the counter a ticket names one place in the queue. */
  lemma TicketNamesPlace(serving: nat, i: nat)
    requires serving < TICKETS && i < TICKETS
    ensures Wrap(serving + i) == serving <==> i == 0
  {
  }

  lemma NextTicket(serving: nat, n: nat)
    ensures Wrap(Wrap(serving + n) + 1) == Wrap(serving + (n + 1)) == Wrap(Wrap(serving + 1) + n)
  {
  }

  lemma FetchAddEnqueues(s: Lock, t: nat, s': Lock, queue: seq<nat>)
    requires Means(s, queue) && Step(s, FetchAdd(t), s')
    ensures Means(s', queue + [t])
  {
    hide Wrap;
    NextTicket(s.servingTicket, |queue|);
    var after := queue + [t];
    assert t !in queue;
    assert forall i :: 0 <= i < |after| ==> after[i] == if i < |queue| then queue[i] else t;
    assert forall u :: u in queue ==> u in after;
    assert t in after;
  }

  /** A spinning thread gets in exactly when it is at the head of the queue. */
  lemma SpinLoadEnters(s: Lock, t: nat, s': Lock, queue: seq<nat>)
    requires Means(s, queue) && Step(s, SpinLoad(t), s')
    ensures Means(s', queue)
    ensures queue != [] && (s'.threads[t].Critical? <==> queue[0] == t)
  {
    hide Wrap;
    QueueIsShort(queue, |s.threads|);
    var i :| 0 <= i < |queue| && queue[i] == t;
    TicketNamesPlace(s.servingTicket, i);
  }

  lemma ReleaseLoadKeeps(s: Lock, t: nat, s': Lock, queue: seq<nat>)
    requires Means(s, queue) && Step(s, ReleaseLoad(t), s')
    ensures Means(s', queue)
  {
    hide Wrap;
    var i :| 0 <= i < |queue| && queue[i] == t;
  }

  lemma ReleaseStoreDequeues(s: Lock, t: nat, s': Lock, queue: seq<nat>)
    requires Means(s, queue) && Step(s, ReleaseStore(t), s')
    ensures queue != [] && queue[0] == t && Means(s', queue[1..])
  {
    hide Wrap;
    var i :| 0 <= i < |queue| && queue[i] == t;
    var rest := queue[1..];
    assert forall j :: 0 <= j < |rest| ==> rest[j] == queue[j + 1];
    NextTicket(s.servingTicket, |queue| - 1);
    forall j | 0 <= j < |rest|
      ensures s'.threads[rest[j]].ticket == Wrap(s'.servingTicket + j)
    {
      NextTicket(s.servingTicket, j);
    }
  }

  /** The protocol refines the queue over every run and every interleaving. */
  lemma {:induction false} RefinesQueue(states: seq<Lock>, events: seq<Event>, k: nat)
    requires IsRun(states, events) && k <= |events|
    ensures Means(states[k], QueueAt(events, k))
  {
    if k > 0 {
      RefinesQueue(states, events, k - 1);
      var s, e, s', queue := states[k - 1], events[k - 1], states[k], QueueAt(events, k - 1);
      assert Step(s, e, s');
      match e
      case FetchAdd(t) => FetchAddEnqueues(s, t, s', queue);
      case SpinLoad(t) => SpinLoadEnters(s, t, s', queue);
      case ReleaseLoad(t) => ReleaseLoadKeeps(s, t, s', queue);
      case ReleaseStore(t) => ReleaseStoreDequeues(s, t, s', queue);
    }
  }

  /** At most one thread is inside, in every state of every run. */
  lemma MutualExclusion(states: seq<Lock>, events: seq<Event>, k: nat, a: nat, b: nat)
    requires IsRun(states, events) && k <= |events|
    requires a < |states[k].threads| && b < |states[k].threads|
    requires states[k].threads[a].Inside() && states[k].threads[b].Inside()
    ensures a == b
  {
    RefinesQueue(states, events, k);
  }

  /** Threads enter in the order of their fetch-adds: the one that enters has waited longest, and the waiting thread
      that came first is never refused. */
  lemma EntryInTicketOrder(states: seq<Lock>, events: seq<Event>, k: nat)
    requires IsRun(states, events) && k < |events| && events[k].SpinLoad?
    ensures QueueAt(events, k) != []
    ensures events[k].t < |states[k + 1].threads|
    ensures (states[k + 1].threads[events[k].t].Critical? <==> QueueAt(events, k)[0] == events[k].t)
  {
    RefinesQueue(states, events, k);
    assert Step(states[k], events[k], states[k + 1]);
    SpinLoadEnters(states[k], events[k].t, states[k + 1], QueueAt(events, k));
  }
}
