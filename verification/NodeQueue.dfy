/** The bounded blocking queue between a node's receiver and its workers
    (common/node_queue.c): the ring buffer, and the monitor with its two condition variables. */
module NodeQueue {

  const CAPACITY := 64

  /** How one pass from taking the lock to releasing it ends: the call returns, it is refused
      because of the shutdown, or the thread goes to sleep on its condition variable. */
  datatype Outcome = Done | Refused | Sleep

  function PushOutcome<M>(items: seq<M>, closed: bool): Outcome {
    if |items| == CAPACITY && !closed then Sleep else if closed then Refused else Done
  }

  function PopOutcome<M>(items: seq<M>, closed: bool): Outcome {
    if items == [] && !closed then Sleep else if items == [] then Refused else Done
  }

  // ---- the ring ----

  function After(slot: nat): nat { (slot + 1) % CAPACITY }

  /** The `count` slots from `head` on, wrapping at the end of the array. */
  function Window<M>(slots: seq<M>, head: nat, count: nat): (w: seq<M>)
    requires |slots| == CAPACITY && head < CAPACITY && count <= CAPACITY
    ensures |w| == count
  {
    if head + count <= CAPACITY then slots[head..head + count]
    else slots[head..] + slots[..head + count - CAPACITY]
  }

  /** Without the remainder: at the end of the array a slot number starts again at 0. */
  function Wrap(slot: nat): nat { if slot < CAPACITY then slot else slot - CAPACITY }

  lemma Wraps(slot: nat)
    requires slot < 2 * CAPACITY
    ensures slot % CAPACITY == Wrap(slot)
  {
  }

  lemma WindowAt<M>(slots: seq<M>, head: nat, count: nat, i: nat)
    requires |slots| == CAPACITY && head < CAPACITY && i < count <= CAPACITY
    ensures Window(slots, head, count)[i] == slots[Wrap(head + i)]
  {
  }

  lemma WindowPop<M>(slots: seq<M>, head: nat, count: nat)
    requires |slots| == CAPACITY && head < CAPACITY && 0 < count <= CAPACITY
    ensures Window(slots, head, count) == [slots[head]] + Window(slots, After(head), count - 1)
  {
    hide Window;
    Wraps(head + 1);
    var w, next := Window(slots, head, count), Wrap(head + 1);
    WindowAt(slots, head, count, 0);
    forall i | 0 < i < count ensures w[i] == Window(slots, next, count - 1)[i - 1] {
      WindowAt(slots, head, count, i);
      WindowAt(slots, next, count - 1, i - 1);
    }
    assert w == [slots[head]] + Window(slots, next, count - 1);
  }

  /** The slot behind the last message. */
  function Tail(head: nat, count: nat): nat { (head + count) % CAPACITY }

  lemma WindowPush<M>(slots: seq<M>, head: nat, count: nat, m: M)
    requires |slots| == CAPACITY && head < CAPACITY && count < CAPACITY
    ensures Window(slots[Tail(head, count) := m], head, count + 1) == Window(slots, head, count) + [m]
  {
    hide Window;
    Wraps(head + count);
    var s := slots[Wrap(head + count) := m];
    WindowAt(s, head, count + 1, count);
    forall i | 0 <= i < count ensures Window(s, head, count + 1)[i] == Window(slots, head, count)[i] {
      WindowAt(s, head, count + 1, i);
      WindowAt(slots, head, count, i);
    }
    assert Window(s, head, count + 1) == Window(slots, head, count) + [m];
  }

  lemma TailIs(head: nat, count: nat)
    requires head < CAPACITY && count <= CAPACITY
    ensures Tail(head, count) == Wrap(head + count)
  {
    Wraps(head + count);
  }

  lemma AfterIs(slot: nat)
    requires slot < CAPACITY
    ensures After(slot) == Wrap(slot + 1)
  {
    Wraps(slot + 1);
  }

  lemma TailMoves(head: nat, count: nat)
    requires head < CAPACITY && count <= CAPACITY
    ensures count < CAPACITY ==> Tail(head, count + 1) == After(Tail(head, count))
    ensures count > 0 ==> Tail(After(head), count - 1) == Tail(head, count)
  {
    hide Tail, After;
    TailIs(head, count);
    AfterIs(Tail(head, count));
    AfterIs(head);
    if count < CAPACITY { TailIs(head, count + 1); }
    if count > 0 { TailIs(After(head), count - 1); }
  }

  class Ring<M(0)> {
    const items: array<M>
    var head: nat
    var tail: nat
    var count: nat
    var closed: bool

    ghost predicate Valid()
      reads this
    {
      items.Length == CAPACITY && head < CAPACITY && count <= CAPACITY && tail == Tail(head, count)
    }

    /** The queued messages, oldest first. */
    ghost function Contents(): seq<M>
      requires Valid()
      reads this, items
    {
      Window(items[..], head, count)
    }

    constructor ()
      ensures Valid() && fresh(items) && Contents() == [] && !closed
    {
      items := new M[CAPACITY];
      head, tail, count, closed := 0, 0, 0, false;
    }

    /** One locked pass of node_queue_push. */
    method Push(m: M) returns (o: Outcome)
      requires Valid()
      modifies this`tail, this`count, items
      ensures Valid() && o == PushOutcome(old(Contents()), closed)
      ensures (o.Refused? <==> closed) && (o.Sleep? <==> !closed && |old(Contents())| == CAPACITY)
      ensures Contents() == if o.Done? then old(Contents()) + [m] else old(Contents())
    {
      hide Window;
      if count == CAPACITY && !closed { return Sleep; }
      if closed { return Refused; }
      WindowPush(items[..], head, count, m);
      TailMoves(head, count);
      items[tail] := m;
      assert items[..] == old(items[..])[tail := m];
      tail := (tail + 1) % CAPACITY;
      count := count + 1;
      o := Done;
    }

    /** One locked pass of node_queue_pop. */
    method Pop() returns (o: Outcome, m: M)
      requires Valid()
      modifies this`head, this`count
      ensures Valid() && o == PopOutcome(old(Contents()), closed)
      ensures (o.Refused? <==> closed && old(Contents()) == [])
      ensures (o.Sleep? <==> !closed && old(Contents()) == [])
      ensures o.Done? ==> old(Contents()) == [m] + Contents()
      ensures !o.Done? ==> Contents() == old(Contents())
    {
      hide Window;
      m := items[head];
      if count == 0 && !closed { return Sleep, m; }
      if count == 0 && closed { return Refused, m; }
      WindowPop(items[..], head, count);
      TailMoves(head, count);
      head := (head + 1) % CAPACITY;
      count := count - 1;
      o := Done;
    }

    /** node_queue_shutdown. */
    method Shutdown()
      requires Valid()
      modifies this`closed
      ensures Valid() && closed && Contents() == old(Contents())
    {
      closed := true;
    }
  }

  // ---- condition variables ----

  /** The threads blocked in pthread_cond_wait, and those woken that do not have the lock yet.
      Threads are numbers. */
  datatype Cond = Cond(sleeping: set<nat>, woken: set<nat>) {
    predicate Wf() { sleeping !! woken }

    predicate Has(t: nat) { t in sleeping || t in woken }

    function Wait(t: nat): Cond { Cond(sleeping + {t}, woken) }

    /** A woken thread gets the lock back. */
    function Resume(t: nat): Cond { Cond(sleeping, woken - {t}) }

    /** pthread_cond_signal wakes one sleeper if there is any; `wake` names it. */
    predicate CanWake(wake: nat) { sleeping == {} || wake in sleeping }

    function Signal(wake: nat): Cond {
      if wake in sleeping then Cond(sleeping - {wake}, woken + {wake}) else this
    }

    function Broadcast(): Cond { Cond({}, woken + sleeping) }

    /** While a thread sleeps, each unit of work has a woken thread of its own. */
    predicate Covers(work: int) { sleeping != {} ==> work <= |woken| }
  }

  lemma SignalCovers(c: Cond, wake: nat, work: int)
    requires c.Wf() && c.CanWake(wake) && c.Covers(work)
    ensures c.Signal(wake).Wf() && c.Signal(wake).Covers(work + 1)
  {
    if wake in c.sleeping { assert |c.woken + {wake}| == |c.woken| + 1; }
  }

  lemma SpuriousCovers(c: Cond, t: nat, work: int)
    requires c.Wf() && c.Covers(work)
    ensures c.Signal(t).Wf() && c.Signal(t).Covers(work)
  {
    if t in c.sleeping { assert |c.woken + {t}| == |c.woken| + 1; }
  }

  lemma ResumeCovers(c: Cond, t: nat, work: int)
    requires c.Wf() && t in c.woken && c.Covers(work)
    ensures c.Resume(t).Wf() && c.Resume(t).Covers(work - 1) && !c.Resume(t).Has(t)
  {
    assert |c.woken - {t}| == |c.woken| - 1;
  }

  // ---- the monitor ----

  datatype Monitor<M> = Monitor(
    items: seq<M>,
    closed: bool,
    notEmpty: Cond,
    notFull: Cond,
    messages: map<nat, M>,
    pushed: seq<M>,
    popped: seq<M>)
  {
    predicate Outside(t: nat) { !notEmpty.Has(t) && !notFull.Has(t) }
  }

  /** Barging threads start a call at any time, and a sleeper may wake for no reason. */
  datatype Step<M> =
    | Push(t: nat, m: M, wake: nat)
    | ResumePush(t: nat, wake: nat)
    | Pop(t: nat, wake: nat)
    | ResumePop(t: nat, wake: nat)
    | Spurious(t: nat)
    | Shutdown

  function Empty<M>(): Monitor<M> { Monitor([], false, Cond({}, {}), Cond({}, {}), map[], [], []) }

  /** The locked pass of a push by thread t. */
  function PushPass<M>(s: Monitor<M>, t: nat, m: M, wake: nat): Monitor<M> {
    match PushOutcome(s.items, s.closed)
    case Refused => s
    case Sleep => s.(notFull := s.notFull.Wait(t), messages := s.messages[t := m])
    case Done => s.(items := s.items + [m], pushed := s.pushed + [m], notEmpty := s.notEmpty.Signal(wake))
  }

  /** The locked pass of a pop by thread t. */
  function PopPass<M>(s: Monitor<M>, t: nat, wake: nat): Monitor<M> {
    match PopOutcome(s.items, s.closed)
    case Refused => s
    case Sleep => s.(notEmpty := s.notEmpty.Wait(t))
    case Done => s.(items := s.items[1..], popped := s.popped + [s.items[0]], notFull := s.notFull.Signal(wake))
  }

  /** One atomic section; a step that is not possible changes nothing. */
  function Next<M>(s: Monitor<M>, step: Step<M>): Monitor<M> {
    match step
    case Push(t, m, wake) =>
      if s.Outside(t) && s.notEmpty.CanWake(wake) then PushPass(s, t, m, wake) else s
    case ResumePush(t, wake) =>
      if t in s.notFull.woken && t in s.messages && s.notEmpty.CanWake(wake)
      then PushPass(s.(notFull := s.notFull.Resume(t)), t, s.messages[t], wake) else s
    case Pop(t, wake) =>
      if s.Outside(t) && s.notFull.CanWake(wake) then PopPass(s, t, wake) else s
    case ResumePop(t, wake) =>
      if t in s.notEmpty.woken && s.notFull.CanWake(wake)
      then PopPass(s.(notEmpty := s.notEmpty.Resume(t)), t, wake) else s
    case Spurious(t) => s.(notEmpty := s.notEmpty.Signal(t), notFull := s.notFull.Signal(t))
    case Shutdown => s.(closed := true, notEmpty := s.notEmpty.Broadcast(), notFull := s.notFull.Broadcast())
  }

  function Run<M>(s: Monitor<M>, steps: seq<Step<M>>): Monitor<M>
    decreases |steps|
  {
    if steps == [] then s else Run(Next(s, steps[0]), steps[1..])
  }

  // ---- no lost wakeup ----

  predicate NobodySleeps<M>(s: Monitor<M>) { s.notEmpty.sleeping == {} && s.notFull.sleeping == {} }

  /** Nobody sleeps through work: while a consumer sleeps, each queued message has a woken
      consumer of its own; while a producer sleeps, each free slot has a woken producer; and
      after the shutdown nobody sleeps. */
  predicate Awake<M>(s: Monitor<M>) {
    && s.notEmpty.Wf() && s.notFull.Wf()
    && s.notEmpty.Covers(|s.items|) && s.notFull.Covers(CAPACITY - |s.items|)
    && (s.closed ==> NobodySleeps(s))
  }

  lemma PushPassAwake<M>(s: Monitor<M>, t: nat, m: M, wake: nat)
    requires s.notEmpty.Wf() && s.notFull.Wf() && !s.notFull.Has(t) && s.notEmpty.CanWake(wake)
    requires s.notEmpty.Covers(|s.items|) && s.notFull.Covers(CAPACITY - |s.items| - 1)
    requires s.closed ==> NobodySleeps(s)
    ensures Awake(PushPass(s, t, m, wake))
  {
    SignalCovers(s.notEmpty, wake, |s.items|);
  }

  lemma PopPassAwake<M>(s: Monitor<M>, t: nat, wake: nat)
    requires s.notEmpty.Wf() && s.notFull.Wf() && !s.notEmpty.Has(t) && s.notFull.CanWake(wake)
    requires s.notEmpty.Covers(|s.items| - 1) && s.notFull.Covers(CAPACITY - |s.items|)
    requires s.closed ==> NobodySleeps(s)
    ensures Awake(PopPass(s, t, wake))
  {
    SignalCovers(s.notFull, wake, CAPACITY - |s.items|);
  }

  lemma ResumePushAwake<M>(s: Monitor<M>, t: nat, m: M, wake: nat)
    requires Awake(s) && t in s.notFull.woken && s.notEmpty.CanWake(wake)
    ensures Awake(PushPass(s.(notFull := s.notFull.Resume(t)), t, m, wake))
  {
    hide PushPass;
    ResumeCovers(s.notFull, t, CAPACITY - |s.items|);
    PushPassAwake(s.(notFull := s.notFull.Resume(t)), t, m, wake);
  }

  lemma ResumePopAwake<M>(s: Monitor<M>, t: nat, wake: nat)
    requires Awake(s) && t in s.notEmpty.woken && s.notFull.CanWake(wake)
    ensures Awake(PopPass(s.(notEmpty := s.notEmpty.Resume(t)), t, wake))
  {
    hide PopPass;
    ResumeCovers(s.notEmpty, t, |s.items|);
    PopPassAwake(s.(notEmpty := s.notEmpty.Resume(t)), t, wake);
  }

  lemma SpuriousAwake<M>(s: Monitor<M>, t: nat)
    requires Awake(s)
    ensures Awake(Next(s, Spurious(t)))
  {
    SpuriousCovers(s.notEmpty, t, |s.items|);
    SpuriousCovers(s.notFull, t, CAPACITY - |s.items|);
  }

  lemma ShutdownAwake<M>(s: Monitor<M>)
    requires Awake(s)
    ensures Awake(Next(s, Shutdown))
  {
  }

  /** Every step keeps every sleeper covered. */
  lemma NextAwake<M>(s: Monitor<M>, step: Step<M>)
    requires Awake(s)
    ensures Awake(Next(s, step))
  {
    match step
    case Push(t, m, wake) =>
      hide PushPass;
      if s.Outside(t) && s.notEmpty.CanWake(wake) { PushPassAwake(s, t, m, wake); }
    case ResumePush(t, wake) =>
      hide PushPass, Awake;
      if t in s.notFull.woken && t in s.messages && s.notEmpty.CanWake(wake) {
        ResumePushAwake(s, t, s.messages[t], wake);
      }
    case Pop(t, wake) =>
      hide PopPass;
      if s.Outside(t) && s.notFull.CanWake(wake) { PopPassAwake(s, t, wake); }
    case ResumePop(t, wake) =>
      hide PopPass, Awake;
      if t in s.notEmpty.woken && s.notFull.CanWake(wake) { ResumePopAwake(s, t, wake); }
    case Spurious(t) => SpuriousAwake(s, t);
    case Shutdown => ShutdownAwake(s);
  }

  // ---- blocked producers ----

  /** Every producer that waits or was woken still carries the message it came with. */
  predicate Carrying<M>(s: Monitor<M>) { s.notFull.sleeping + s.notFull.woken <= s.messages.Keys }

  lemma NextCarrying<M>(s: Monitor<M>, step: Step<M>)
    requires Carrying(s)
    ensures Carrying(Next(s, step))
  {
  }

  // ---- order ----

  predicate Fifo<M(==)>(s: Monitor<M>) { s.pushed == s.popped + s.items && |s.items| <= CAPACITY }

  lemma NextFifo<M>(s: Monitor<M>, step: Step<M>)
    requires Fifo(s)
    ensures Fifo(Next(s, step))
  {
    if s.items != [] {
      assert s.popped + s.items == (s.popped + [s.items[0]]) + s.items[1..];
    }
    match step
    case Push(_, m, _) => assert (s.popped + s.items) + [m] == s.popped + (s.items + [m]);
    case ResumePush(t, _) =>
      if t in s.messages {
        assert (s.popped + s.items) + [s.messages[t]] == s.popped + (s.items + [s.messages[t]]);
      }
    case _ =>
  }

  lemma {:induction false} RunKeeps<M>(s: Monitor<M>, steps: seq<Step<M>>)
    requires Awake(s) && Carrying(s) && Fifo(s)
    ensures Awake(Run(s, steps)) && Carrying(Run(s, steps)) && Fifo(Run(s, steps))
    decreases |steps|
  {
    hide Next, Awake, Carrying, Fifo;
    if steps != [] {
      NextAwake(s, steps[0]);
      NextCarrying(s, steps[0]);
      NextFifo(s, steps[0]);
      RunKeeps(Next(s, steps[0]), steps[1..]);
    }
  }

  /** In every reachable state no wakeup is lost, every blocked producer has a message to push
      when it resumes, and what was popped is a prefix of what was pushed, in order; so a sleeper
      next to work always has a woken thread to do it. */
  lemma QueueSafety<M>(steps: seq<Step<M>>)
    ensures var s := Run(Empty<M>(), steps);
            && Awake(s) && |s.items| <= CAPACITY
            && (forall t :: t in s.notFull.sleeping || t in s.notFull.woken ==> t in s.messages)
            && s.pushed == s.popped + s.items
            && (s.notEmpty.sleeping != {} && s.items != [] ==> s.notEmpty.woken != {})
            && (s.notFull.sleeping != {} && |s.items| < CAPACITY ==> s.notFull.woken != {})
  {
    RunKeeps(Empty<M>(), steps);
  }

  // ---- an open queue refuses nothing ----

  /** One sleeper, named by wake, is woken if any sleeps. */
  predicate WakesOne(before: Cond, after: Cond, wake: nat) {
    if wake in before.sleeping
    then after.sleeping == before.sleeping - {wake} && after.woken == before.woken + {wake}
    else after == before
  }

  /** A producer that gets the lock of an open queue with message m: it puts the message behind the
      others and wakes one consumer, or, on a full queue, goes to sleep with it. */
  predicate Pushes<M(==)>(s: Monitor<M>, n: Monitor<M>, t: nat, m: M, wake: nat) {
    if |s.items| < CAPACITY
    then n == s.(items := s.items + [m], pushed := s.pushed + [m], notEmpty := n.notEmpty)
         && WakesOne(s.notEmpty, n.notEmpty, wake)
    else t in n.notFull.sleeping && n.messages == s.messages[t := m]
         && n.notFull.sleeping == s.notFull.sleeping + {t} && n.notFull.woken == s.notFull.woken
         && n.items == s.items && n.pushed == s.pushed && n.popped == s.popped && n.notEmpty == s.notEmpty
  }

  /** A consumer that gets the lock of an open queue: it takes the oldest message and wakes one
      producer, or, on an empty queue, goes to sleep. */
  predicate Pops<M(==)>(s: Monitor<M>, n: Monitor<M>, t: nat, wake: nat) {
    if s.items != []
    then [s.items[0]] + n.items == s.items && n.popped == s.popped + [s.items[0]] && n.pushed == s.pushed
         && WakesOne(s.notFull, n.notFull, wake) && n.notEmpty == s.notEmpty && n.messages == s.messages
    else t in n.notEmpty.sleeping && n == s.(notEmpty := Cond(s.notEmpty.sleeping + {t}, s.notEmpty.woken))
  }

  /** On an open queue every call that gets the lock is served or waits; none is refused. */
  lemma OpenServes<M>(s: Monitor<M>, t: nat, m: M, wake: nat)
    requires !s.closed && |s.items| <= CAPACITY
    ensures s.Outside(t) && s.notEmpty.CanWake(wake) ==> Pushes(s, Next(s, Push(t, m, wake)), t, m, wake)
    ensures s.Outside(t) && s.notFull.CanWake(wake) ==> Pops(s, Next(s, Step<M>.Pop(t, wake)), t, wake)
    ensures t in s.notFull.woken && t in s.messages && s.notEmpty.CanWake(wake) ==>
              Pushes(s.(notFull := s.notFull.Resume(t)), Next(s, Step<M>.ResumePush(t, wake)), t, s.messages[t], wake)
    ensures t in s.notEmpty.woken && s.notFull.CanWake(wake) ==>
              Pops(s.(notEmpty := s.notEmpty.Resume(t)), Next(s, Step<M>.ResumePop(t, wake)), t, wake)
  {
    if s.items != [] { assert s.items == [s.items[0]] + s.items[1..]; }
  }

  // ---- after the shutdown ----

  /** The shutdown closes the queue and wakes everyone; no message is lost. */
  lemma ShutdownCloses<M>(s: Monitor<M>)
    ensures var n := Next(s, Step<M>.Shutdown);
            && n.closed && NobodySleeps(n) && n.items == s.items && n.messages == s.messages
            && n.notEmpty.woken == s.notEmpty.woken + s.notEmpty.sleeping
            && n.notFull.woken == s.notFull.woken + s.notFull.sleeping
  {
  }

  lemma ClosedStep<M>(s: Monitor<M>, step: Step<M>)
    requires s.closed
    ensures var n := Next(s, step);
            n.closed && n.pushed == s.pushed
            && ((n.popped == s.popped && n.items == s.items)
                || (s.items != [] && n.popped == s.popped + [s.items[0]] && n.items == s.items[1..]))
  {
  }

  /** The number of calls in `steps` that take a message out. */
  function Takes<M>(s: Monitor<M>, steps: seq<Step<M>>): nat
    decreases |steps|
  {
    if steps == [] then 0
    else (if |Next(s, steps[0]).popped| > |s.popped| then 1 else 0) + Takes(Next(s, steps[0]), steps[1..])
  }

  /** After the shutdown every push is refused and pops drain what is left, oldest first, before
      they report an empty queue. */
  lemma {:induction false} ShutdownDrains<M>(s: Monitor<M>, steps: seq<Step<M>>)
    requires s.closed
    ensures Takes(s, steps) <= |s.items|
    ensures var e := Run(s, steps);
            e.closed && e.pushed == s.pushed
            && e.popped == s.popped + s.items[..Takes(s, steps)] && e.items == s.items[Takes(s, steps)..]
    decreases |steps|
  {
    hide Next;
    if steps == [] {
      assert s.popped + s.items[..0] == s.popped;
    } else {
      var n, rest := Next(s, steps[0]), steps[1..];
      ClosedStep(s, steps[0]);
      ShutdownDrains(n, rest);
      var k := Takes(n, rest);
      if n.items != s.items {
        assert s.items[..k + 1] == [s.items[0]] + s.items[1..][..k];
        assert (s.popped + [s.items[0]]) + s.items[1..][..k] == s.popped + s.items[..k + 1];
      }
    }
  }

  /** On a closed queue that still holds a message, a pop always takes one, whether it is a new
      call or a consumer that resumes from its wait. */
  lemma ClosedPopTakes<M>(s: Monitor<M>, t: nat, wake: nat)
    requires Awake(s) && s.closed && s.items != []
    ensures s.Outside(t) ==> Takes(s, [Step<M>.Pop(t, wake)]) == 1
    ensures t in s.notEmpty.woken ==> Takes(s, [Step<M>.ResumePop(t, wake)]) == 1
  {
    assert s.notFull.CanWake(wake);
    TakesOne(s, Pop(t, wake));
    TakesOne(s, ResumePop(t, wake));
  }

  lemma TakesOne<M>(s: Monitor<M>, step: Step<M>)
    ensures Takes(s, [step]) == if |Next(s, step).popped| > |s.popped| then 1 else 0
  {
    hide Next;
    assert [step][1..] == [];
  }
}
