/**
  Interleaved critical sections of any number of threads on one input queue
  (WinPort/src/ConsoleInput.cpp).

  Each step is what happens inside the mutex, or the handling of one dequeued event outside it.
  Dequeued events may be handled in any order and arbitrarily late, so the runs include those of
  callbacks that use the queue themselves.
  */
module InputRuns {
  import opened ConsoleInput

  // What became of an event that left the queue. `InHand` is dequeued but not yet inspected.
  datatype Fate = Flushed | InHand | Inspected

  // A thread in WaitForNonEmpty is about to check its condition or asleep.
  datatype Waiter = Away | Awake(priority: nat) | Asleep(priority: nat)

  datatype State = State(
    q: Queue,
    enqueued: seq<Event>,  // every event that ever entered
    fates: seq<Fate>,      // of the first ones among these, in order
    invoked: seq<nat>,     // the callbacks invoked, by their position in `enqueued`
    waiters: seq<Waiter>,
    tokens: seq<nat>)      // the priorities handed out and not yet given back

  datatype Step =
    | Enqueue(data: seq<Event>)  // or JoinConsoleInput of a queue that holds these
    | Dequeue(size: nat, priority: nat)
    | Inspect(event: nat)
    | Flush(priority: nat)
    | Raise
    | Lower(token: nat)
    | Wait(waiter: nat, priority: nat)
    | Check(waiter: nat)
    | WakeUp(waiter: nat)        // spuriously, or by a timeout

  predicate Enabled(s: State, step: Step) {
    match step
    case Inspect(j) => j < |s.fates| && s.fates[j] == InHand
    case Raise => Current(s.q.priorities) < MAX_PRIORITY
    case Lower(k) => k < |s.tokens|
    case Wait(i, _) => i < |s.waiters| && s.waiters[i].Away?
    case Check(i) => i < |s.waiters| && s.waiters[i].Awake?
    case WakeUp(i) => i < |s.waiters| && s.waiters[i].Asleep?
    case _ => true
  }

  function NotifyAll(waiters: seq<Waiter>): (r: seq<Waiter>)
    ensures |r| == |waiters| && forall i | 0 <= i < |r| :: !r[i].Asleep?
  {
    seq(|waiters|, i requires 0 <= i < |waiters| =>
      if waiters[i].Asleep? then Awake(waiters[i].priority) else waiters[i])
  }

  function Next(s: State, step: Step): State
    requires Enabled(s, step)
  {
    match step
    case Enqueue(data) =>
      s.(q := s.q.(pending := s.q.pending + data), enqueued := s.enqueued + data,
      waiters := if data == [] then s.waiters else NotifyAll(s.waiters))
    case Dequeue(size, priority) => Removed(s, Available(s.q, size, priority), InHand)
    case Inspect(j) =>
      s.(fates := s.fates[j := Inspected],
      invoked := if j < |s.enqueued| && s.enqueued[j].Callback? then s.invoked + [j] else s.invoked)
    case Flush(priority) => Removed(s, Available(s.q, |s.q.pending|, priority), Flushed)
    case Raise =>
      var p := Current(s.q.priorities) + 1;
      s.(q := s.q.(priorities := s.q.priorities + {p}), tokens := s.tokens + [p])
    case Lower(k) =>
      s.(q := s.q.(priorities := s.q.priorities - {s.tokens[k]}), tokens := s.tokens[..k] + s.tokens[k + 1..],
      waiters := if s.q.pending == [] then s.waiters else NotifyAll(s.waiters))
    case Wait(i, priority) => s.(waiters := s.waiters[i := Awake(priority)])
    case Check(i) =>
      var p := s.waiters[i].priority;
      s.(waiters := s.waiters[i := if Ready(s.q, p) then Away else Asleep(p)])
    case WakeUp(i) => s.(waiters := s.waiters[i := Awake(s.waiters[i].priority)])
  }

  function Removed(s: State, n: nat, fate: Fate): State
    requires n <= |s.q.pending|
  {
    s.(q := s.q.(pending := s.q.pending[n..]), fates := s.fates + seq(n, i => fate))
  }

  function Init(threads: nat): State {
    State(Queue([], {}), [], [], [], seq(threads, i => Away), [])
  }

  ghost predicate Run(threads: nat, states: seq<State>, steps: seq<Step>) {
    && |states| == |steps| + 1
    && states[0] == Init(threads)
    && forall i | 0 <= i < |steps| :: Enabled(states[i], steps[i]) && states[i + 1] == Next(states[i], steps[i])
  }

  // ---------------------------------------------------------------------------------
  // What every run keeps
  // ---------------------------------------------------------------------------------

  // Events leave in the order in which they entered, and none is lost or doubled.
  ghost predicate InOrder(s: State) {
    |s.fates| <= |s.enqueued| && s.q.pending == s.enqueued[|s.fates|..]
  }

  // The callbacks invoked are those that were dequeued and inspected, each once.
  ghost predicate InvokedOnce(s: State) {
    && (forall i, j | 0 <= i < j < |s.invoked| :: s.invoked[i] != s.invoked[j])
    && (forall j :: j in s.invoked <==>
          0 <= j < |s.fates| && j < |s.enqueued| && s.fates[j] == Inspected && s.enqueued[j].Callback?)
  }

  // No two holders have the same priority, so the one given back is always there to be erased.
  ghost predicate TokensAreHeld(s: State) {
    && (forall i, j | 0 <= i < j < |s.tokens| :: s.tokens[i] != s.tokens[j])
    && (forall p :: p in s.q.priorities <==> p in s.tokens)
  }

  // Nobody sleeps whose wake condition holds.
  ghost predicate NoLostWakeup(s: State) {
    forall i | 0 <= i < |s.waiters| :: s.waiters[i].Asleep? ==> !Ready(s.q, s.waiters[i].priority)
  }

  ghost predicate Sound(s: State) {
    InOrder(s) && InvokedOnce(s) && TokensAreHeld(s) && NoLostWakeup(s)
  }

  lemma StepKeepsOrder(s: State, step: Step)
    requires Enabled(s, step) && InOrder(s)
    ensures InOrder(Next(s, step))
  {
  }

  lemma StepKeepsInvokedOnce(s: State, step: Step)
    requires Enabled(s, step) && InOrder(s) && InvokedOnce(s)
    ensures InvokedOnce(Next(s, step))
  {
    var t := Next(s, step);
    if step.Inspect? {
      assert step.event !in s.invoked;
      forall j
        ensures j in t.invoked <==> j in s.invoked || (j == step.event && s.enqueued[j].Callback?)
      {
      }
    } else {
      assert t.invoked == s.invoked && |t.fates| >= |s.fates|;
      assert forall j | |s.fates| <= j < |t.fates| :: t.fates[j] != Inspected;
      assert forall j | 0 <= j < |s.fates| :: t.fates[j] == s.fates[j] && t.enqueued[j] == s.enqueued[j];
    }
  }

  lemma StepKeepsTokens(s: State, step: Step)
    requires Enabled(s, step) && TokensAreHeld(s)
    ensures TokensAreHeld(Next(s, step))
  {
    if step.Lower? {
      var k, t := step.token, Next(s, step);
      assert forall i | 0 <= i < |t.tokens| :: t.tokens[i] == s.tokens[if i < k then i else i + 1];
      forall p
        ensures p in t.tokens <==> p in s.tokens && p != s.tokens[k]
      {
        if p in s.tokens && p != s.tokens[k] {
          var i :| 0 <= i < |s.tokens| && s.tokens[i] == p;
          assert t.tokens[if i < k then i else i - 1] == p;
        }
      }
    }
  }

  lemma StepKeepsWaiters(s: State, step: Step)
    requires Enabled(s, step) && NoLostWakeup(s)
    ensures NoLostWakeup(Next(s, step))
  {
  }

  lemma {:induction false} RunsAreSound(threads: nat, states: seq<State>, steps: seq<Step>)
    requires Run(threads, states, steps)
    ensures forall i | 0 <= i < |states| :: Sound(states[i])
  {
    var n := |steps|;
    if n > 0 {
      var s, step := states[n - 1], steps[n - 1];
      RunsAreSound(threads, states[..n], steps[..n - 1]);
      assert Sound(states[..n][n - 1]);
      StepKeepsOrder(s, step);
      StepKeepsInvokedOnce(s, step);
      StepKeepsTokens(s, step);
      StepKeepsWaiters(s, step);
      forall i | 0 <= i < |states|
        ensures Sound(states[i])
      {
        assert i < n ==> Sound(states[..n][i]);
      }
    }
  }

  // ---------------------------------------------------------------------------------
  // What follows for requestors
  // ---------------------------------------------------------------------------------

  // The events that left the queue by Dequeue, in order.
  function Dequeued(events: seq<Event>, fates: seq<Fate>): seq<Event>
    requires |fates| <= |events|
  {
    if fates == [] then []
    else (if fates[0] == Flushed then [] else [events[0]]) + Dequeued(events[1..], fates[1..])
  }

  // The stream without what was flushed.
  function Unflushed(events: seq<Event>, fates: seq<Fate>): seq<Event>
    requires |fates| <= |events|
  {
    if fates == [] then events
    else (if fates[0] == Flushed then [] else [events[0]]) + Unflushed(events[1..], fates[1..])
  }

  lemma {:induction false} DequeuedThenPending(events: seq<Event>, fates: seq<Fate>)
    requires |fates| <= |events|
    ensures Dequeued(events, fates) + events[|fates|..] == Unflushed(events, fates)
  {
    if fates != [] {
      DequeuedThenPending(events[1..], fates[1..]);
      assert events[|fates|..] == events[1..][|fates[1..]|..];
    }
  }

  // In every run, what was dequeued followed by what is pending is what was enqueued, in order,
  // minus what was flushed; once nothing is in hand, exactly the dequeued callbacks were
  // invoked, each once.
  lemma StreamIsDelivered(threads: nat, states: seq<State>, steps: seq<Step>)
    requires Run(threads, states, steps)
    ensures var s := states[|steps|];
            && |s.fates| <= |s.enqueued|
            && Dequeued(s.enqueued, s.fates) + s.q.pending == Unflushed(s.enqueued, s.fates)
            && (forall i, j | 0 <= i < j < |s.invoked| :: s.invoked[i] != s.invoked[j])
            && (InHand !in s.fates ==>
                  forall j :: j in s.invoked <==>
                    0 <= j < |s.fates| && s.fates[j] != Flushed && s.enqueued[j].Callback?)
  {
    RunsAreSound(threads, states, steps);
    var s := states[|steps|];
    assert Sound(s);
    DequeuedThenPending(s.enqueued, s.fates);
  }

  // A priority that is raised is above all that are held, and while it is held nobody with
  // a lower one removes anything.
  lemma HolderExcludesLower(threads: nat, states: seq<State>, steps: seq<Step>, i: nat)
    requires Run(threads, states, steps) && i < |steps|
    ensures steps[i].Raise? ==>
              exists p :: states[i + 1].tokens == states[i].tokens + [p] && forall t | t in states[i].tokens :: t < p
    ensures forall t | t in states[i].tokens ::
              (steps[i].Dequeue? || steps[i].Flush?) && steps[i].priority < t ==> states[i + 1] == states[i]
  {
    RunsAreSound(threads, states, steps);
    var s := states[i];
    assert Sound(s);
    if steps[i].Raise? {
      assert states[i + 1].tokens == s.tokens + [Current(s.q.priorities) + 1];
    }
    forall t | t in s.tokens && (steps[i].Dequeue? || steps[i].Flush?) && steps[i].priority < t
      ensures states[i + 1] == s
    {
      assert s.q.pending[0..] == s.q.pending;
      assert states[i + 1] == Removed(s, 0, if steps[i].Dequeue? then InHand else Flushed);
    }
  }

  // Whoever waits with events pending and no higher priority held is awake, and its next check
  // lets it go.
  lemma WaiterIsServed(threads: nat, states: seq<State>, steps: seq<Step>, i: nat)
    requires Run(threads, states, steps)
    requires var s := states[|steps|];
             i < |s.waiters| && !s.waiters[i].Away? && s.q.pending != [] &&
             forall t | t in s.tokens :: t <= s.waiters[i].priority
    ensures var s := states[|steps|]; Enabled(s, Check(i)) && Next(s, Check(i)).waiters[i].Away?
  {
    RunsAreSound(threads, states, steps);
    var s := states[|steps|];
    assert Sound(s);
  }
}
