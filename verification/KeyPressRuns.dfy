/**
  CheckForKeyPress while other threads use the same queue (WinPort/src/APIConsole.cpp).

  Each step is one critical section: the look whether there is something, the removal of one
  event, the return of what is kept. Between two of them the others add events behind, remove
  events in front, and change the priorities.
  */
module KeyPressRuns {
  import opened ConsoleInput

  // An event, and how many had arrived before it.
  datatype Arrival = Arrival(event: Event, at: nat)

  datatype Phase = Waiting | Taking | Returning | Done

  datatype State = State(
    pending: seq<Arrival>, priorities: set<nat>,
    arrived: nat,  // how many events have arrived so far
    taken: seq<Event>, out: nat, calls: seq<nat>, backlog: seq<Arrival>, phase: Phase)

  // Events that arrive now.
  function Arriving(data: seq<Event>, arrived: nat): (r: seq<Arrival>)
    ensures |r| == |data|
    ensures forall i | 0 <= i < |r| :: r[i] == Arrival(data[i], arrived + i)
  {
    seq(|data|, i requires 0 <= i < |data| => Arrival(data[i], arrived + i))
  }

  function Events(arrivals: seq<Arrival>): (r: seq<Event>)
    ensures |r| == |arrivals|
    ensures forall i | 0 <= i < |r| :: r[i] == arrivals[i].event
  {
    seq(|arrivals|, i requires 0 <= i < |arrivals| => arrivals[i].event)
  }

  function Contents(s: State): Queue {
    Queue(Events(s.pending), s.priorities)
  }

  function Start(q: Queue): State {
    State(Arriving(q.pending, 0), q.priorities, |q.pending|, [], 0, [], [], Waiting)
  }

  ghost predicate OwnStep(codes: seq<nat>, keep: Keep, s: State, t: State) {
    match s.phase
    case Waiting => t == s.(phase := if Ready(Contents(s), 0) then Taking else Returning)
    case Taking =>
      if Available(Contents(s), 1, 0) == 0 then t == s.(phase := Returning)
      else
        var e := s.pending[0].event;
        && NextPress(codes, Marked(e), s.out, t.out)
        && t == s.(pending := s.pending[1..], taken := s.taken + [e], out := t.out, calls := s.calls + Calls([e]),
                   backlog := s.backlog +
                   if Kept(codes, keep, Marked(e)) then [Arrival(Marked(e), s.pending[0].at)] else [],
                   phase := Waiting)
    case Returning => t == s.(pending := s.pending + s.backlog, phase := Done)
    case Done => false
  }

  // What any number of operations of the others come to.
  ghost predicate OthersStep(s: State, t: State) {
    exists n: nat, data: seq<Event> :: n <= |s.pending| && t == Others(s, n, data, t.priorities)
  }

  function Others(s: State, n: nat, data: seq<Event>, priorities: set<nat>): State
    requires n <= |s.pending|
  {
    s.(pending := s.pending[n..] + Arriving(data, s.arrived), arrived := s.arrived + |data|, priorities := priorities)
  }

  ghost predicate IsRun(codes: seq<nat>, keep: Keep, run: seq<State>) {
    && run != [] && run[0] == Start(Contents(run[0]))
    && forall i | 0 <= i < |run| - 1 :: OwnStep(codes, keep, run[i], run[i + 1]) || OthersStep(run[i], run[i + 1])
  }

  // ---------------------------------------------------------------------------------
  // What is taken
  // ---------------------------------------------------------------------------------

  // In every run, whatever the others do: the result, the callbacks invoked and what goes back are
  // those of the events that were taken, in the order in which they were taken.
  lemma {:induction false} TakenIsChecked(codes: seq<nat>, keep: Keep, run: seq<State>)
    requires IsRun(codes, keep, run)
    ensures var s := run[|run| - 1]; Checked(codes, keep, s.taken, s.out, s.calls, Events(s.backlog))
  {
    if |run| > 1 {
      var s, t := run[|run| - 2], run[|run| - 1];
      TakenIsChecked(codes, keep, run[..|run| - 1]);
      if t.taken != s.taken {
        var e := s.pending[0].event;
        CheckedNext(codes, keep, s.taken, e, s.out, s.calls, Events(s.backlog));
        assert Events(t.backlog) == Events(s.backlog) + if Kept(codes, keep, Marked(e)) then [Marked(e)] else [];
      }
    } else {
      assert Events([]) == [];
    }
  }

  // ---------------------------------------------------------------------------------
  // The order of arrival
  // ---------------------------------------------------------------------------------

  ghost predicate InOrder(arrivals: seq<Arrival>) {
    forall i, j | 0 <= i < j < |arrivals| :: arrivals[i].at < arrivals[j].at
  }

  ghost predicate Before(a: seq<Arrival>, b: seq<Arrival>) {
    forall i, j | 0 <= i < |a| && 0 <= j < |b| :: a[i].at < b[j].at
  }

  lemma OrderOfSum(a: seq<Arrival>, b: seq<Arrival>)
    ensures InOrder(a + b) <==> InOrder(a) && InOrder(b) && Before(a, b)
  {
    assert forall i | 0 <= i < |a| :: (a + b)[i] == a[i];
    assert forall j | 0 <= j < |b| :: (a + b)[|a| + j] == b[j];
  }

  ghost predicate AllArrived(arrivals: seq<Arrival>, arrived: nat) {
    forall i | 0 <= i < |arrivals| :: arrivals[i].at < arrived
  }

  // What is kept aside arrived before all that is pending.
  ghost predicate KeptIsFirst(s: State) {
    && AllArrived(s.backlog, s.arrived) && AllArrived(s.pending, s.arrived)
    && InOrder(s.backlog) && InOrder(s.pending) && Before(s.backlog, s.pending)
  }

  // The step that puts back what was kept.
  predicate Returns(s: State, t: State) {
    s.phase == Returning && t.phase == Done
  }

  lemma OwnStepKeepsOrder(codes: seq<nat>, keep: Keep, s: State, t: State)
    requires OwnStep(codes, keep, s, t) && KeptIsFirst(s)
    ensures if Returns(s, t) then AllArrived(t.pending, t.arrived) else KeptIsFirst(t)
  {
    if s.phase == Taking && t.taken != s.taken {
      var more := if t.backlog == s.backlog then [] else [Arrival(Marked(s.pending[0].event), s.pending[0].at)];
      assert t.backlog == s.backlog + more;
      OrderOfSum(s.backlog, more);
    }
  }

  // What is put back is in order of arrival exactly when nothing is pending at that moment, or
  // nothing was kept.
  lemma ReturnIsInOrderExactlyWhen(codes: seq<nat>, keep: Keep, s: State, t: State)
    requires OwnStep(codes, keep, s, t) && Returns(s, t) && KeptIsFirst(s)
    ensures InOrder(t.pending) <==> s.pending == [] || s.backlog == []
  {
    OrderOfSum(s.pending, s.backlog);
    assert s.pending != [] && s.backlog != [] ==> s.backlog[0].at < s.pending[0].at;
  }

  // Some removed in front, some arrived behind.
  lemma ChangedEndsStayInOrder(a: seq<Arrival>, n: nat, data: seq<Event>, arrived: nat)
    requires n <= |a| && AllArrived(a, arrived)
    ensures var b := a[n..] + Arriving(data, arrived);
            AllArrived(b, arrived + |data|) && (InOrder(a) ==> InOrder(b))
  {
    OrderOfSum(a[n..], Arriving(data, arrived));
  }

  lemma ChangedEndsStayBehind(kept: seq<Arrival>, a: seq<Arrival>, n: nat, data: seq<Event>, arrived: nat)
    requires n <= |a| && AllArrived(kept, arrived) && Before(kept, a)
    ensures Before(kept, a[n..] + Arriving(data, arrived))
  {
  }

  lemma OthersStepKeepsOrder(s: State, t: State)
    requires OthersStep(s, t) && AllArrived(s.pending, s.arrived)
    ensures t.phase == s.phase && AllArrived(t.pending, t.arrived)
    ensures InOrder(s.pending) ==> InOrder(t.pending)
    ensures KeptIsFirst(s) ==> KeptIsFirst(t)
  {
    var n: nat, data: seq<Event> :| n <= |s.pending| && t == Others(s, n, data, t.priorities);
    ChangedEndsStayInOrder(s.pending, n, data, s.arrived);
    if KeptIsFirst(s) {
      ChangedEndsStayBehind(s.backlog, s.pending, n, data, s.arrived);
    }
  }

  ghost predicate AlwaysInOrder(run: seq<State>) {
    forall i | 0 <= i < |run| :: InOrder(run[i].pending)
  }

  // Whatever the run puts back, it puts back into an empty queue.
  ghost predicate ReturnsToEmpty(run: seq<State>) {
    forall i | 0 <= i < |run| - 1 && Returns(run[i], run[i + 1]) :: run[i].pending == [] || run[i].backlog == []
  }

  // In every run the queue is in order of arrival at all times exactly when nothing is put back, or
  // nothing is pending at the moment when it is.
  lemma {:induction false} OrderIsKeptExactlyWhen(codes: seq<nat>, keep: Keep, run: seq<State>)
    requires IsRun(codes, keep, run)
    ensures var s := run[|run| - 1]; AllArrived(s.pending, s.arrived) && (s.phase != Done ==> KeptIsFirst(s))
    ensures AlwaysInOrder(run) <==> ReturnsToEmpty(run)
  {
    if |run| > 1 {
      var front, s, t := run[..|run| - 1], run[|run| - 2], run[|run| - 1];
      OrderIsKeptExactlyWhen(codes, keep, front);
      assert front[|front| - 1] == s;
      assert AlwaysInOrder(run) <==> AlwaysInOrder(front) && InOrder(t.pending);
      assert ReturnsToEmpty(run) <==>
        ReturnsToEmpty(front) && (Returns(s, t) ==> s.pending == [] || s.backlog == []);
      OneMoreStep(codes, keep, s, t);
    }
  }

  lemma OneMoreStep(codes: seq<nat>, keep: Keep, s: State, t: State)
    requires OwnStep(codes, keep, s, t) || OthersStep(s, t)
    requires AllArrived(s.pending, s.arrived) && (s.phase != Done ==> KeptIsFirst(s))
    ensures AllArrived(t.pending, t.arrived) && (t.phase != Done ==> KeptIsFirst(t))
    ensures InOrder(s.pending) ==> (InOrder(t.pending) <==> (Returns(s, t) ==> s.pending == [] || s.backlog == []))
  {
    if OthersStep(s, t) {
      OthersStepKeepsOrder(s, t);
    } else {
      OwnStepKeepsOrder(codes, keep, s, t);
      if Returns(s, t) {
        ReturnIsInOrderExactlyWhen(codes, keep, s, t);
      }
    }
  }

  // One event is taken and kept, another one comes, and the first is put back.
  function FallBehind(first: Event, later: Event): (run: seq<State>)
    ensures |run| == 6
  {
    var one, two := Arrival(first, 0), Arrival(later, 1);
    [State([one], {}, 1, [], 0, [], [], Waiting),
     State([one], {}, 1, [], 0, [], [], Taking),
     State([], {}, 1, [first], 0, [], [one], Waiting),
     State([], {}, 1, [first], 0, [], [one], Returning),
     State([two], {}, 2, [first], 0, [], [one], Returning),
     State([two, one], {}, 2, [first], 0, [], [one], Done)]
  }

  lemma FirstIsTaken(codes: seq<nat>, first: Event, later: Event)
    requires first.Mouse?
    ensures var run := FallBehind(first, later);
            forall i | 0 <= i < 3 :: OwnStep(codes, Keep(true, true, true, true), run[i], run[i + 1])
  {
    assert Calls([first]) == [];
  }

  lemma FirstComesBack(codes: seq<nat>, first: Event, later: Event)
    ensures var run := FallBehind(first, later);
            OthersStep(run[3], run[4]) && OwnStep(codes, Keep(true, true, true, true), run[4], run[5])
  {
    var run := FallBehind(first, later);
    assert run[4] == Others(run[3], 0, [later], {});
  }

  // An event that was kept can fall behind one that came later.
  lemma KeptCanFallBehind(codes: seq<nat>, first: Event, later: Event)
    requires first.Mouse?
    ensures var run := FallBehind(first, later);
            && IsRun(codes, Keep(true, true, true, true), run)
            && Contents(run[0]).pending == [first]
            && run[5].phase == Done && Contents(run[5]).pending == [later, first] && !InOrder(run[5].pending)
  {
    var run := FallBehind(first, later);
    FirstIsTaken(codes, first, later);
    FirstComesBack(codes, first, later);
    assert Contents(run[0]).pending == [first] && run[0] == Start(Contents(run[0]));
    assert run[5].pending[0].at == 1 && run[5].pending[1].at == 0;
  }
}
