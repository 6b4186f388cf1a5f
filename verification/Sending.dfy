/** The send side: a queue of packets, one asynchronous write at a time, and the handlers posted on the strand. */
module Sending {
  import opened Sequences
  import opened Bytes
  import opened Wrappers

  datatype OutPacket = OutPacket(bytes: seq<byte>, last: bool)

  /** Handlers waiting on the strand: DoWrite(TRUE), DoWrite(FALSE), DoDisconnect. */
  datatype Task = StartWrite | ResumeWrite | Disconnect

  /**
   `busy`: an asynchronous write is outstanding. `senders`: threads between pushing a packet and posting DoWrite(TRUE).
   `pushed`, `done` and `wire` record every packet pushed, every packet completed, and every byte sent.
   */
  datatype WriteState = WriteState(
    queue: seq<OutPacket>,
    current: Option<OutPacket>,
    offset: nat,
    busy: bool,
    tasks: multiset<Task>,
    senders: nat,
    failed: bool,
    closed: bool,
    pushed: seq<OutPacket>,
    done: seq<OutPacket>,
    wire: seq<byte>)

  const IDLE := WriteState([], None, 0, false, multiset{}, 0, false, false, [], [], [])

  // ---------- Steps ----------

  datatype Event =
    | Push(packet: OutPacket)
    | Post
    | Run(task: Task)
    | Written(size: nat)
    | WriteError
    | ReadError

  predicate Enabled(st: WriteState, e: Event) {
    && !st.closed
    && match e
      case Push(p) => p.bytes != [] // a package has at least its header
      case Post => st.senders > 0
      case Run(t) => t in st.tasks
      case Written(n) => st.busy && st.current.Some? && st.offset + n <= |st.current.value.bytes|
      case WriteError => st.busy
      case ReadError => true
  }

  /** The body of DoWrite. A fresh start leaves a packet in progress alone; both take the next packet when there is none. */
  function DoWrite(st: WriteState, start: bool): WriteState {
    if st.current.Some? then
      if start then st else st.(busy := true)
    else if st.queue == [] then st
    else st.(current := Some(st.queue[0]), queue := st.queue[1..], offset := 0, busy := true)
  }

  /** The completion handler of a write of `n` bytes. */
  function Completed(st: WriteState, n: nat): WriteState
    requires st.current.Some? && st.offset + n <= |st.current.value.bytes|
  {
    var p := st.current.value;
    var offset := st.offset + n;
    var after := st.(offset := offset, busy := false, wire := st.wire + p.bytes[st.offset..offset]);
    if offset == |p.bytes| then
      after.(current := None, done := st.done + [p],
             tasks := st.tasks + multiset{if p.last then Disconnect else StartWrite})
    else after.(tasks := st.tasks + multiset{ResumeWrite})
  }

  function Next(st: WriteState, e: Event): WriteState
    requires Enabled(st, e)
  {
    match e
    case Push(p) => st.(queue := st.queue + [p], pushed := st.pushed + [p], senders := st.senders + 1)
    case Post => st.(senders := st.senders - 1, tasks := st.tasks + multiset{StartWrite})
    case Run(t) =>
      var taken := st.(tasks := st.tasks - multiset{t});
      (match t
       case StartWrite => DoWrite(taken, true)
       case ResumeWrite => DoWrite(taken, false)
       case Disconnect => taken.(queue := [], current := None, closed := true))
    case Written(n) => Completed(st, n)
    case WriteError => st.(busy := false, failed := true, tasks := st.tasks + multiset{Disconnect})
    case ReadError => st.(tasks := st.tasks + multiset{Disconnect})
  }

  lemma RunIsDoWrite(st: WriteState, start: bool)
    requires Enabled(st, Run(if start then StartWrite else ResumeWrite))
    ensures var t := if start then StartWrite else ResumeWrite;
      t in st.tasks && Next(st, Run(t)) == DoWrite(st.(tasks := st.tasks - multiset{t}), start)
  {
  }

  lemma WrittenIsCompleted(st: WriteState, n: nat)
    requires Enabled(st, Written(n))
    ensures Next(st, Written(n)) == Completed(st, n)
  {
  }

  /** The state after a run, or none if some step of the run was not enabled. */
  function Exec(st: WriteState, run: seq<Event>): Option<WriteState>
    decreases run
  {
    if run == [] then Some(st)
    else if Enabled(st, run[0]) then Exec(Next(st, run[0]), run[1..])
    else None
  }

  // ---------- What every step keeps ----------

  function BytesOf(ps: seq<OutPacket>): seq<byte> {
    if ps == [] then [] else ps[0].bytes + BytesOf(ps[1..])
  }

  lemma {:induction false} BytesOfAppend(a: seq<OutPacket>, b: seq<OutPacket>)
    ensures BytesOf(a + b) == BytesOf(a) + BytesOf(b)
  {
    if a == [] {
      assert a + b == b;
    } else {
      BytesOfAppend(a[1..], b);
      assert (a + b)[1..] == a[1..] + b;
      ConcatAssociates(a[0].bytes, BytesOf(a[1..]), BytesOf(b));
    }
  }

  function InProgress(st: WriteState): seq<OutPacket> {
    if st.current.Some? then [st.current.value] else []
  }

  /** At most one write is outstanding or about to be continued; there is one exactly while a packet is in progress. */
  ghost predicate OneWriter(st: WriteState) {
    && !(st.busy && ResumeWrite in st.tasks)
    && st.tasks[ResumeWrite] <= 1
    && (!st.failed ==> (st.current.Some? <==> st.busy || ResumeWrite in st.tasks))
    && (st.failed ==> st.current.Some? && !st.busy && ResumeWrite !in st.tasks && Disconnect in st.tasks)
  }

  /** Packets leave in the order they were pushed, and the wire holds the completed ones and a part of the next. */
  ghost predicate InOrder(st: WriteState) {
    && st.pushed == st.done + InProgress(st) + st.queue
    && (st.current.Some? ==> st.offset < |st.current.value.bytes|)
    && (forall p :: p in st.queue ==> p.bytes != [])
    && st.wire == BytesOf(st.done) + (if st.current.Some? then st.current.value.bytes[..st.offset] else [])
  }

  /** A waiting packet always has somebody coming for it. */
  ghost predicate NoLostWakeup(st: WriteState) {
    st.queue != [] && st.current.None? ==> StartWrite in st.tasks || Disconnect in st.tasks || st.senders > 0
  }

  ghost predicate Safe(st: WriteState) {
    !st.closed ==> OneWriter(st) && InOrder(st) && NoLostWakeup(st)
  }

  lemma StepOneWriter(st: WriteState, e: Event)
    requires OneWriter(st) && Enabled(st, e) && !Next(st, e).closed
    ensures OneWriter(Next(st, e))
  {
  }

  lemma CompletedInOrder(st: WriteState, n: nat)
    requires InOrder(st) && st.current.Some? && st.offset + n <= |st.current.value.bytes|
    ensures InOrder(Completed(st, n))
  {
    var p, sent := st.current.value, st.current.value.bytes[..st.offset];
    var more := p.bytes[st.offset..st.offset + n];
    assert sent + more == p.bytes[..st.offset + n];
    assert BytesOf(st.done) + sent + more == BytesOf(st.done) + (sent + more);
    BytesOfAppend(st.done, [p]);
    assert BytesOf([p]) == p.bytes == p.bytes[..|p.bytes|];
    assert st.done + [p] + st.queue == st.done + [p] + [] + st.queue;
  }

  lemma DoWriteInOrder(st: WriteState, start: bool)
    requires InOrder(st)
    ensures InOrder(DoWrite(st, start))
  {
    if st.queue != [] && st.current.None? {
      assert st.done + [] + st.queue == st.done + [st.queue[0]] + st.queue[1..];
    }
  }

  lemma StepInOrder(st: WriteState, e: Event)
    requires InOrder(st) && Enabled(st, e) && !Next(st, e).closed
    ensures InOrder(Next(st, e))
  {
    hide DoWrite, Completed, BytesOf;
    match e
    case Push(p) => assert st.pushed + [p] == st.done + InProgress(st) + (st.queue + [p]);
    case Run(t) => DoWriteInOrder(st.(tasks := st.tasks - multiset{t}), t.StartWrite?);
    case Written(n) => CompletedInOrder(st, n);
    case _ =>
  }

  lemma StepNoLostWakeup(st: WriteState, e: Event)
    requires OneWriter(st) && NoLostWakeup(st) && Enabled(st, e) && !Next(st, e).closed
    ensures NoLostWakeup(Next(st, e))
  {
  }

  lemma StepSafe(st: WriteState, e: Event)
    requires Safe(st) && Enabled(st, e)
    ensures Safe(Next(st, e))
  {
    hide Next, OneWriter, InOrder, NoLostWakeup;
    if !Next(st, e).closed {
      StepOneWriter(st, e);
      StepInOrder(st, e);
      StepNoLostWakeup(st, e);
    }
  }

  /** Over every run up to disconnection, whatever the order of handlers and the sizes of the partial writes. */
  lemma {:induction false} RunSafe(st: WriteState, run: seq<Event>)
    requires Safe(st) && Exec(st, run).Some?
    ensures Safe(Exec(st, run).value)
    decreases run
  {
    if run != [] {
      StepSafe(st, run[0]);
      RunSafe(Next(st, run[0]), run[1..]);
    }
  }

  /** The bytes still to be sent. */
  function Unsent(st: WriteState): seq<byte> {
    (if st.current.Some? && st.offset <= |st.current.value.bytes| then st.current.value.bytes[st.offset..] else [])
    + BytesOf(st.queue)
  }

  lemma WireThenUnsent(st: WriteState)
    requires InOrder(st)
    ensures st.wire + Unsent(st) == BytesOf(st.pushed)
  {
    hide BytesOf, OneWriter;
    BytesOfAppend(st.done + InProgress(st), st.queue);
    BytesOfAppend(st.done, InProgress(st));
    BytesOfOne(st);
    var sent, left := BytesOf(st.done), BytesOf(st.queue);
    if st.current.Some? {
      var p := st.current.value.bytes;
      ConcatAssociates(sent, p[..st.offset], p[st.offset..] + left);
      ConcatAssociates(p[..st.offset], p[st.offset..], left);
      ConcatAssociates(sent, p, left);
    } else {
      ConcatAssociates(sent, [], left);
    }
  }

  lemma BytesOfOne(st: WriteState)
    requires st.current.Some? ==> st.offset <= |st.current.value.bytes|
    ensures BytesOf(InProgress(st)) == if st.current.Some?
      then st.current.value.bytes[..st.offset] + st.current.value.bytes[st.offset..] else []
    ensures st.current.Some? ==> st.current.value.bytes[..st.offset] + st.current.value.bytes[st.offset..] == st.current.value.bytes
  {
  }

  /** In every reachable state before disconnection the wire carries a prefix of what was pushed. */
  lemma WireIsPrefix(run: seq<Event>)
    requires Exec(IDLE, run).Some? && !Exec(IDLE, run).value.closed
    ensures var st := Exec(IDLE, run).value;
      && st.wire + Unsent(st) == BytesOf(st.pushed)
      && st.done + InProgress(st) + st.queue == st.pushed
  {
    hide Exec, InOrder, OneWriter, NoLostWakeup;
    InitiallySafe();
    RunSafe(IDLE, run);
    InOrderPushed(Exec(IDLE, run).value);
    WireThenUnsent(Exec(IDLE, run).value);
  }

  /** What stays true even when the session is closed: the books of what was pushed, completed and sent. */
  ghost predicate Booked(st: WriteState) {
    st.done <= st.pushed && BytesOf(st.done) <= st.wire <= BytesOf(st.pushed)
  }

  lemma SafeBooked(st: WriteState)
    requires Safe(st) && !st.closed
    ensures Booked(st)
  {
    hide OneWriter, NoLostWakeup, BytesOf;
    WireThenUnsent(st);
    InOrderPushed(st);
    ConcatAssociates(st.done, InProgress(st), st.queue);
    assert st.wire <= st.wire + Unsent(st);
  }

  lemma StepBooked(st: WriteState, e: Event)
    requires Safe(st) && Enabled(st, e)
    ensures Booked(Next(st, e))
  {
    hide OneWriter, InOrder, NoLostWakeup, BytesOf;
    if Next(st, e).closed {
      SafeBooked(st);
    } else {
      StepSafe(st, e);
      SafeBooked(Next(st, e));
    }
  }

  lemma {:induction false} RunBooked(st: WriteState, run: seq<Event>)
    requires Safe(st) && Booked(st) && Exec(st, run).Some?
    ensures Booked(Exec(st, run).value)
    decreases run
  {
    hide Safe, Booked, Next;
    if run != [] {
      StepSafe(st, run[0]);
      StepBooked(st, run[0]);
      RunBooked(Next(st, run[0]), run[1..]);
    }
  }

  /** In every reachable state, closed or not: the wire carries the completed packets and a prefix of the pushed ones. */
  lemma WireAlwaysPrefix(run: seq<Event>)
    requires Exec(IDLE, run).Some?
    ensures Booked(Exec(IDLE, run).value)
  {
    hide Exec;
    InitiallySafe();
    RunBooked(IDLE, run);
  }

  /** A packet marked as the last one has been completed. */
  ghost predicate LastSent(st: WriteState) {
    AnyLast(st.done)
  }

  lemma StepLastSent(st: WriteState, e: Event)
    requires Enabled(st, e) && !e.WriteError? && !e.ReadError?
    requires Disconnect in st.tasks ==> LastSent(st)
    ensures Disconnect in Next(st, e).tasks || Next(st, e).closed ==> LastSent(Next(st, e))
  {
    if e.Written? {
      var p := st.current.value;
      assert p in st.done + [p];
      assert forall q :: q in st.done ==> q in st.done + [p];
    }
  }

  /** Without errors, a session is only closed when a packet marked as the last one has been sent. */
  lemma {:induction false} ClosedAfterLast(st: WriteState, run: seq<Event>)
    requires Exec(st, run).Some? && !st.closed && (Disconnect in st.tasks ==> LastSent(st))
    requires forall e :: e in run ==> !e.WriteError? && !e.ReadError?
    ensures Exec(st, run).value.closed ==> LastSent(Exec(st, run).value)
    decreases run
  {
    hide LastSent, Next;
    if run != [] {
      var next := Next(st, run[0]);
      StepLastSent(st, run[0]);
      if next.closed {
        ClosedStays(next, run[1..]);
      } else {
        ClosedAfterLast(next, run[1..]);
      }
    }
  }

  lemma InOrderPushed(st: WriteState)
    requires InOrder(st)
    ensures st.done + InProgress(st) + st.queue == st.pushed
  {
  }

  lemma InitiallySafe()
    ensures Safe(IDLE)
  {
  }

  /** In every reachable state before disconnection: one writer at a time, and nobody waits for ever. */
  lemma ReachableSafe(run: seq<Event>)
    requires Exec(IDLE, run).Some? && !Exec(IDLE, run).value.closed
    ensures var st := Exec(IDLE, run).value;
      && st.tasks[ResumeWrite] + (if st.busy then 1 else 0) == (if st.current.Some? && !st.failed then 1 else 0)
      && (st.queue != [] && st.current.None? ==> StartWrite in st.tasks || Disconnect in st.tasks || st.senders > 0)
  {
    InitiallySafe();
    RunSafe(IDLE, run);
  }

  // ---------- Everything gets sent ----------

  ghost predicate Quiet(st: WriteState) {
    !st.busy && st.tasks == multiset{} && st.senders == 0
  }

  /** When nothing is left to happen by itself, everything pushed has been sent. */
  lemma QuietMeansSent(run: seq<Event>)
    requires Exec(IDLE, run).Some?
    ensures var st := Exec(IDLE, run).value;
      !st.closed && Quiet(st) ==> st.queue == [] && st.current.None? && st.done == st.pushed && st.wire == BytesOf(st.pushed)
  {
    InitiallySafe();
    RunSafe(IDLE, run);
    var st := Exec(IDLE, run).value;
    if !st.closed && Quiet(st) {
      WireIsPrefix(run);
      assert st.done + [] + [] == st.done;
    }
  }

  /** A step of the session itself: no new packet, no error, and a write that makes progress. */
  predicate Own(e: Event) {
    e.Post? || e.Run? || (e.Written? && e.size > 0)
  }

  function Work(st: WriteState): nat
  {
    3 * |Unsent(st)| + 3 * st.senders + 2 * |st.tasks| + if st.busy then 1 else 0
  }

  lemma WrittenWork(st: WriteState, n: nat)
    requires Enabled(st, Written(n)) && n > 0
    ensures Work(Completed(st, n)) < Work(st)
  {
    hide BytesOf;
    assert |Unsent(Completed(st, n))| == |Unsent(st)| - n;
  }

  lemma DoWriteUnsent(st: WriteState, start: bool)
    ensures |Unsent(DoWrite(st, start))| == |Unsent(st)|
  {
  }

  lemma RunWork(st: WriteState, t: Task)
    requires Enabled(st, Run(t)) && !t.Disconnect?
    ensures Work(Next(st, Run(t))) < Work(st)
  {
    hide Unsent;
    var taken := st.(tasks := st.tasks - multiset{t});
    UnsentIgnores(st, taken);
    DoWriteUnsent(taken, t.StartWrite?);
    assert st.tasks == taken.tasks + multiset{t};
  }

  lemma OwnStepsWork(st: WriteState, e: Event)
    requires OneWriter(st) && InOrder(st) && Enabled(st, e) && Own(e) && !Next(st, e).closed
    ensures InOrder(Next(st, e)) && Work(Next(st, e)) < Work(st)
  {
    hide OneWriter, InOrder, Unsent, Completed, DoWrite;
    StepInOrder(st, e);
    match e
    case Post => UnsentIgnores(st, Next(st, e));
    case Run(t) => RunWork(st, t);
    case Written(n) => WrittenWork(st, n);
  }

  lemma UnsentIgnores(a: WriteState, b: WriteState)
    requires a.queue == b.queue && a.current == b.current && a.offset == b.offset
    ensures Unsent(a) == Unsent(b)
  {
  }

  /** Sending cannot go on for ever: with no new packets and no errors, a run is no longer than the work at its start. */
  lemma {:induction false} DrainEnds(st: WriteState, run: seq<Event>)
    requires Safe(st) && !st.closed && Exec(st, run).Some? && !Exec(st, run).value.closed
    requires forall e :: e in run ==> Own(e)
    ensures |run| + Work(Exec(st, run).value) <= Work(st)
    decreases run
  {
    if run != [] {
      var next := Next(st, run[0]);
      StepSafe(st, run[0]);
      OwnStepsWork(st, run[0]);
      DrainEnds(next, run[1..]);
    }
  }

  /** And it does not get stuck: unless it is quiet or closed, a step of its own is enabled. */
  lemma NeverStuck(st: WriteState)
    requires Safe(st) && !st.closed && !Quiet(st)
    ensures exists e :: Own(e) && Enabled(st, e)
  {
    if st.busy {
      assert Own(Written(1)) && Enabled(st, Written(1));
    } else if st.senders > 0 {
      assert Own(Post) && Enabled(st, Post);
    } else {
      var t :| t in st.tasks;
      assert Own(Run(t)) && Enabled(st, Run(t));
    }
  }

  /** A disconnection is pending, or will be when a packet marked as the last one has been sent. */
  ghost predicate Ends(st: WriteState) {
    Disconnect in st.tasks || (st.current.Some? && st.current.value.last) || AnyLast(st.queue)
  }

  ghost predicate AnyLast(ps: seq<OutPacket>) {
    exists p :: p in ps && p.last
  }

  lemma OwnStepsEnd(st: WriteState, e: Event)
    requires Enabled(st, e) && Own(e)
    ensures if Next(st, e).closed then Ends(st) else Ends(Next(st, e)) <==> Ends(st)
  {
    hide DoWrite, AnyLast;
    match e
    case Post =>
    case Run(t) =>
      if !t.Disconnect? {
        DoWriteEnds(st.(tasks := st.tasks - multiset{t}), t.StartWrite?);
      }
    case Written(n) =>
  }

  lemma DoWriteEnds(st: WriteState, start: bool)
    ensures var r := DoWrite(st, start); r.closed == st.closed && (Ends(r) <==> Ends(st))
  {
    if st.queue != [] {
      assert st.queue == [st.queue[0]] + st.queue[1..];
    }
  }

  /** With no new packets and no errors, a run that ends closed or quiet ends closed iff something says that it must. */
  lemma {:induction false} ClosesExactly(st: WriteState, run: seq<Event>)
    requires Safe(st) && !st.closed && Exec(st, run).Some?
    requires forall e :: e in run ==> Own(e)
    requires var r := Exec(st, run).value; r.closed || Quiet(r)
    ensures Exec(st, run).value.closed <==> Ends(st)
    decreases run
  {
    hide OneWriter, InOrder, NoLostWakeup, Next, Ends, Quiet;
    if run == [] {
      QuietSent(st);
      QuietDoesNotEnd(st);
    } else {
      StepSafe(st, run[0]);
      OwnStepsEnd(st, run[0]);
      var next := Next(st, run[0]);
      if next.closed {
        ClosedStays(next, run[1..]);
      } else {
        ClosesExactly(next, run[1..]);
      }
    }
  }

  /** After an error, every run of own steps that ends quiet or closed ends closed. */
  lemma ErrorCloses(st: WriteState, e: Event, run: seq<Event>)
    requires Safe(st) && Enabled(st, e) && (e.WriteError? || e.ReadError?) && Exec(Next(st, e), run).Some?
    requires forall own :: own in run ==> Own(own)
    requires var r := Exec(Next(st, e), run).value; r.closed || Quiet(r)
    ensures Exec(Next(st, e), run).value.closed
  {
    hide OneWriter, InOrder, NoLostWakeup, Own, Quiet;
    StepSafe(st, e);
    ClosesExactly(Next(st, e), run);
  }

  lemma QuietDoesNotEnd(st: WriteState)
    requires Quiet(st) && st.queue == [] && st.current.None?
    ensures !Ends(st)
  {
  }

  lemma ClosedStays(st: WriteState, run: seq<Event>)
    requires st.closed && Exec(st, run).Some?
    ensures Exec(st, run).value == st
  {
  }

  /**
   From every safe state the session can, by its own steps, send all it holds; only if a disconnection is pending or a
   held packet is marked as the last one, it ends closed instead.
   */
  lemma {:induction false} Drains(st: WriteState) returns (run: seq<Event>)
    requires Safe(st) && !st.closed
    ensures (forall e :: e in run ==> Own(e)) && Exec(st, run).Some?
    ensures var r := Exec(st, run).value;
      && (r.closed <==> Ends(st))
      && (!r.closed ==>
            Quiet(r) && r.pushed == st.pushed && r.queue == [] && r.current.None? && r.wire == BytesOf(r.pushed))
    decreases Work(st)
  {
    hide InOrder, OneWriter, NoLostWakeup, Ends, Work, Next, Own, BytesOf;
    if Quiet(st) {
      run := [];
      QuietSent(st);
    } else {
      var e := OwnStep(st);
      StepSafe(st, e);
      var next := Next(st, e);
      if next.closed {
        run := [e];
      } else {
        OwnStepsWork(st, e);
        OwnPushesNothing(st, e);
        var rest := Drains(next);
        run := [e] + rest;
      }
    }
    ClosesExactly(st, run);
  }

  lemma OwnPushesNothing(st: WriteState, e: Event)
    requires Enabled(st, e) && Own(e)
    ensures Next(st, e).pushed == st.pushed
  {
  }

  lemma OwnStep(st: WriteState) returns (e: Event)
    requires Safe(st) && !st.closed && !Quiet(st)
    ensures Own(e) && Enabled(st, e)
  {
    NeverStuck(st);
    e :| Own(e) && Enabled(st, e);
  }

  lemma QuietSent(st: WriteState)
    requires Safe(st) && !st.closed && Quiet(st)
    ensures st.queue == [] && st.current.None? && st.wire == BytesOf(st.pushed)
  {
    WireThenUnsent(st);
  }
}
