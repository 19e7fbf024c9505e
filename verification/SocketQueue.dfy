/** The queue of accepted sockets between the master thread and the workers, as long as stop_flag is 0. */
module SocketQueue {

  const SIZE := 20

  // ---------- the ring ----------

  /** The array and the two counters of mg_context. */
  datatype Ring<T> = Ring(slots: seq<T>, head: int, tail: int)

  ghost predicate RingOk<T>(r: Ring<T>) {
    |r.slots| == SIZE && 0 <= r.tail <= SIZE && r.tail <= r.head <= r.tail + SIZE
  }

  predicate Full<T>(r: Ring<T>) {
    r.head - r.tail >= SIZE
  }

  predicate Empty<T>(r: Ring<T>) {
    r.head <= r.tail
  }

  /** The sockets in the queue, the oldest first. */
  ghost function Queued<T>(r: Ring<T>): (q: seq<T>)
    requires RingOk(r)
    ensures |q| == r.head - r.tail
  {
    seq(r.head - r.tail, i requires 0 <= i < r.head - r.tail => r.slots[(r.tail + i) % SIZE])
  }

  ghost function Put<T>(r: Ring<T>, sp: T): Ring<T>
    requires RingOk(r)
  {
    Ring(r.slots[r.head % SIZE := sp], r.head + 1, r.tail)
  }

  /** "while (sq_tail > SIZE) { sq_tail -= SIZE; sq_head -= SIZE; }" */
  ghost function Wrap<T>(r: Ring<T>): Ring<T>
    decreases r.tail
  {
    if r.tail > SIZE then Wrap(Ring(r.slots, r.head - SIZE, r.tail - SIZE)) else r
  }

  ghost function Take<T>(r: Ring<T>): Ring<T> {
    Wrap(Ring(r.slots, r.head, r.tail + 1))
  }

  ghost function Oldest<T>(r: Ring<T>): T
    requires RingOk(r)
  {
    r.slots[r.tail % SIZE]
  }

  lemma PutAppends<T>(r: Ring<T>, sp: T)
    requires RingOk(r) && !Full(r)
    ensures RingOk(Put(r, sp)) && Queued(Put(r, sp)) == Queued(r) + [sp]
  {
    var r' := Put(r, sp);
    forall i | 0 <= i < r.head - r.tail
      ensures Queued(r')[i] == Queued(r)[i]
    {
      OtherSlot(r.head, r.tail + i);
    }
  }

  lemma OtherSlot(head: nat, k: nat)
    requires k < head < k + SIZE + 1 && head != k + SIZE
    ensures k % SIZE != head % SIZE
  {
  }

  lemma TakeRemoves<T>(r: Ring<T>)
    requires RingOk(r) && !Empty(r)
    ensures RingOk(Take(r)) && Queued(r) == [Oldest(r)] + Queued(Take(r))
  {
    TakeIs(r);
    hide Take;
    forall i | 0 <= i < r.head - r.tail - 1
      ensures Queued(Take(r))[i] == Queued(r)[i + 1]
    {
      SameSlot(r.tail + 1 + i);
    }
  }

  lemma TakeIs<T>(r: Ring<T>)
    requires RingOk(r)
    ensures Take(r) ==
            if r.tail == SIZE then Ring(r.slots, r.head - SIZE, 1) else Ring(r.slots, r.head, r.tail + 1)
  {
    var wrapped := Ring(r.slots, r.head - SIZE, r.tail + 1 - SIZE);
    assert Wrap(wrapped) == if r.tail + 1 - SIZE > SIZE then Wrap(Ring(r.slots, r.head - 2 * SIZE, r.tail + 1 - 2 * SIZE)) else wrapped;
  }

  lemma SameSlot(k: int)
    ensures (k - SIZE) % SIZE == k % SIZE
  {
  }

  /** The shared part of mg_context.  Each method runs with the mutex held, from one release to the next. */
  class Context<T(0)> {
    var queue: array<T>
    var sq_head: int
    var sq_tail: int

    ghost function AsRing(): Ring<T>
      reads this, queue
    {
      Ring(queue[..], sq_head, sq_tail)
    }

    ghost predicate Valid()
      reads this, queue
    {
      RingOk(AsRing())
    }

    constructor ()
      ensures Valid() && Queued(AsRing()) == [] && fresh(queue)
    {
      queue := new T[SIZE];
      sq_head, sq_tail := 0, 0;
    }

    /** One pass of produce_socket: puts the socket in, or finds that it must wait on sq_empty. */
    method Produce(sp: T) returns (waits: bool)
      requires Valid()
      modifies this`sq_head, queue
      ensures Valid() && waits == old(Full(AsRing()))
      ensures AsRing() == if waits then old(AsRing()) else old(Put(AsRing(), sp))
      ensures Queued(AsRing()) == old(Queued(AsRing())) + if waits then [] else [sp]
    {
      if sq_head - sq_tail >= SIZE {
        return true;
      }
      PutAppends(AsRing(), sp);
      queue[sq_head % SIZE] := sp;
      sq_head := sq_head + 1;
      return false;
    }

    /** One pass of consume_socket: takes a socket out, or finds that it must wait on sq_full. */
    method Consume() returns (waits: bool, sp: T)
      requires Valid()
      modifies this`sq_head, this`sq_tail
      ensures Valid() && waits == old(Empty(AsRing()))
      ensures AsRing() == if waits then old(AsRing()) else old(Take(AsRing()))
      ensures old(Queued(AsRing())) == (if waits then [] else [sp]) + Queued(AsRing())
    {
      sp := queue[sq_tail % SIZE];
      if sq_head == sq_tail {
        return true, sp;
      }
      TakeRemoves(AsRing());
      sq_tail := sq_tail + 1;
      while sq_tail > SIZE
        invariant Wrap(AsRing()) == old(Take(AsRing()))
        decreases sq_tail
      {
        sq_tail := sq_tail - SIZE;
        sq_head := sq_head - SIZE;
      }
      return false, sp;
    }
  }

  // ---------- the threads ----------

  /** The master thread, and the socket it wants to queue when it is inside produce_socket. */
  datatype Producer<T> =
    | Away
    | Waiting(sp: T)    // in pthread_cond_wait on sq_empty
    | Signalled(sp: T)  // woken by a signal, has not run yet
    | Woken(sp: T)      // woken without a signal, has not run yet

  /**
   waiting: the workers in pthread_cond_wait on sq_full; signalled: those a signal has woken and that have
   not run yet; woken: those that woke without a signal and have not run yet.  put and taken record the
   sockets that went in and came out.
   */
  datatype State<T> = State(ring: Ring<T>, producer: Producer<T>, waiting: set<nat>, signalled: set<nat>,
                            woken: set<nat>, put: seq<T>, taken: seq<T>)

  datatype Event<T> =
    | Produce(sp: T, chosen: set<nat>)  // the master enters produce_socket
    | ProducerRuns(chosen: set<nat>)    // the master comes back from pthread_cond_wait
    | Consume(worker: nat)              // a worker enters consume_socket
    | WorkerRuns(worker: nat)           // a worker comes back from pthread_cond_wait
    | WorkerWakes(worker: nat)          // a wait ends without a signal
    | ProducerWakes

  ghost predicate Init<T>(s: State<T>) {
    |s.ring.slots| == SIZE && s.ring.head == 0 && s.ring.tail == 0 && s.producer == Away &&
    s.waiting == {} && s.signalled == {} && s.woken == {} && s.put == [] && s.taken == []
  }

  /** pthread_cond_signal wakes at least one waiting thread, if there is one. */
  ghost predicate Signals<T>(s: State<T>, chosen: set<nat>) {
    chosen <= s.waiting && (s.waiting != {} ==> chosen != {})
  }

  /** The master holds the mutex at the head of the loop in produce_socket. */
  ghost predicate ProducerPass<T>(s: State<T>, sp: T, chosen: set<nat>, s': State<T>)
    requires RingOk(s.ring)
  {
    if Full(s.ring) then s' == s.(producer := Waiting(sp))
    else
      Signals(s, chosen) &&
      s' == s.(ring := Put(s.ring, sp), put := s.put + [sp], producer := Away,
               waiting := s.waiting - chosen, signalled := s.signalled + chosen)
  }

  /** A worker holds the mutex at the head of the loop in consume_socket. */
  ghost predicate WorkerPass<T>(s: State<T>, w: nat, s': State<T>)
    requires RingOk(s.ring)
  {
    if Empty(s.ring) then
      s' == s.(waiting := s.waiting + {w}, signalled := s.signalled - {w}, woken := s.woken - {w})
    else
      s' == s.(ring := Take(s.ring), taken := s.taken + [Oldest(s.ring)],
               signalled := s.signalled - {w}, woken := s.woken - {w},
               producer := if s.producer.Waiting? then Signalled(s.producer.sp) else s.producer)
  }

  ghost predicate Next<T>(s: State<T>, e: Event<T>, s': State<T>) {
    RingOk(s.ring) &&
    match e
    case Produce(sp, chosen) => s.producer == Away && ProducerPass(s, sp, chosen, s')
    case ProducerRuns(chosen) =>
      (s.producer.Signalled? || s.producer.Woken?) && ProducerPass(s, s.producer.sp, chosen, s')
    case Consume(w) => w !in s.waiting + s.signalled + s.woken && WorkerPass(s, w, s')
    case WorkerRuns(w) => w in s.signalled + s.woken && WorkerPass(s, w, s')
    case WorkerWakes(w) => w in s.waiting && s' == s.(waiting := s.waiting - {w}, woken := s.woken + {w})
    case ProducerWakes => s.producer.Waiting? && s' == s.(producer := Woken(s.producer.sp))
  }

  /** A run: states joined by events. */
  ghost predicate Run<T>(states: seq<State<T>>, events: seq<Event<T>>) {
    |states| == |events| + 1 && Init(states[0]) &&
    forall i :: 0 <= i < |events| ==> Next(states[i], events[i], states[i + 1])
  }

  // ---------- what every state of every run satisfies ----------

  /** What went in is what came out and what is still queued, in that order. */
  ghost predicate Fifo<T>(s: State<T>) {
    RingOk(s.ring) && s.put == s.taken + Queued(s.ring)
  }

  /** A worker sleeps only if every queued socket has a signalled worker on its way. */
  ghost predicate NoLostSocket<T>(s: State<T>) {
    s.waiting != {} ==> s.ring.head - s.ring.tail <= |s.signalled|
  }

  /** The master sleeps only on a full queue. */
  ghost predicate NoLostRoom<T>(s: State<T>) {
    s.producer.Waiting? ==> Full(s.ring)
  }

  ghost predicate Apart<T>(s: State<T>) {
    s.waiting !! s.signalled && s.waiting !! s.woken && s.signalled !! s.woken
  }

  ghost predicate Inv<T>(s: State<T>) {
    Fifo(s) && NoLostSocket(s) && NoLostRoom(s) && Apart(s)
  }

  lemma InitInv<T>(s: State<T>)
    requires Init(s)
    ensures Inv(s)
  {
  }

  lemma ProducerPassKeeps<T>(s: State<T>, sp: T, chosen: set<nat>, s': State<T>)
    requires Inv(s) && ProducerPass(s, sp, chosen, s')
    ensures Inv(s')
  {
    hide Put, Queued;
    if !Full(s.ring) {
      PutAppends(s.ring, sp);
      assert s.taken + (Queued(s.ring) + [sp]) == s.put + [sp];
      if s.waiting != {} {
        MoreSignalled(s.signalled, chosen);
      }
    }
  }

  lemma MoreSignalled(signalled: set<nat>, chosen: set<nat>)
    requires chosen != {} && chosen !! signalled
    ensures |signalled + chosen| > |signalled|
  {
    var w :| w in chosen;
    assert signalled + chosen == signalled + {w} + (chosen - {w});
  }

  lemma WorkerPassKeeps<T>(s: State<T>, w: nat, s': State<T>)
    requires Inv(s) && w !in s.waiting && WorkerPass(s, w, s')
    ensures Inv(s')
  {
    hide Take, Queued;
    if !Empty(s.ring) {
      TakeRemoves(s.ring);
      assert s.taken + ([Oldest(s.ring)] + Queued(Take(s.ring))) == s.taken + [Oldest(s.ring)] + Queued(Take(s.ring));
    }
  }

  lemma NextInv<T>(s: State<T>, e: Event<T>, s': State<T>)
    requires Inv(s) && Next(s, e, s')
    ensures Inv(s')
  {
    hide ProducerPass, WorkerPass, Queued;
    match e
    case Produce(sp, chosen) => ProducerPassKeeps(s, sp, chosen, s');
    case ProducerRuns(chosen) => ProducerPassKeeps(s, s.producer.sp, chosen, s');
    case Consume(w) => WorkerPassKeeps(s, w, s');
    case WorkerRuns(w) => WorkerPassKeeps(s, w, s');
    case WorkerWakes(w) =>
    case ProducerWakes =>
  }

  lemma {:induction false} RunInv<T>(states: seq<State<T>>, events: seq<Event<T>>, i: nat)
    requires Run(states, events) && i < |states|
    ensures Inv(states[i])
  {
    hide Inv, Next, Init;
    if i == 0 {
      InitInv(states[0]);
    } else {
      RunInv(states, events, i - 1);
      NextInv(states[i - 1], events[i - 1], states[i]);
    }
  }

  // ---------- main results ----------

  /** The queue is a FIFO: what came out is a prefix of what went in, and the rest is queued. */
  lemma QueueIsFifo<T>(states: seq<State<T>>, events: seq<Event<T>>, i: nat)
    requires Run(states, events) && i < |states|
    ensures RingOk(states[i].ring) && states[i].put == states[i].taken + Queued(states[i].ring)
    ensures |Queued(states[i].ring)| <= SIZE
  {
    hide Run, Queued;
    RunInv(states, events, i);
  }

  /** The counters never grow beyond twice the size of the queue, so they cannot overflow. */
  lemma CountersStaySmall<T>(states: seq<State<T>>, events: seq<Event<T>>, i: nat)
    requires Run(states, events) && i < |states|
    ensures 0 <= states[i].ring.tail <= SIZE && states[i].ring.tail <= states[i].ring.head <= 2 * SIZE
  {
    hide Run, Queued;
    RunInv(states, events, i);
  }

  lemma NoLostWakeUp<T>(states: seq<State<T>>, events: seq<Event<T>>, i: nat)
    requires Run(states, events) && i < |states|
    ensures var s := states[i];
            (s.waiting != {} ==> s.ring.head - s.ring.tail <= |s.signalled|) &&
            (s.producer.Waiting? ==> s.ring.head - s.ring.tail == SIZE)
  {
    hide Run, Queued;
    RunInv(states, events, i);
  }

  /** With at least one worker, the master and all the workers are never asleep at once. */
  lemma NeverAllAsleep<T>(states: seq<State<T>>, events: seq<Event<T>>, i: nat, workers: set<nat>)
    requires Run(states, events) && i < |states| && workers != {} && states[i].signalled <= workers
    ensures states[i].producer.Waiting? ==> exists w :: w in workers && w !in states[i].waiting
  {
    hide Run, Queued;
    RunInv(states, events, i);
    var s := states[i];
    if s.producer.Waiting? {
      var w :| w in workers;
      if w in s.waiting {
        var v :| v in s.signalled;
      }
    }
  }
}
