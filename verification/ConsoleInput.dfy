/**
  The queue of console input events (WinPort/src/ConsoleInput.cpp and CheckForKeyPress of
  WinPort/src/APIConsole.cpp).

  `Input` is the object as one thread sees it inside the mutex. `InputRuns` interleaves the
  critical sections of any number of threads.
  */
module ConsoleInput {

  datatype Event =
    | Key(code: nat, down: bool, detail: nat)
    | Mouse(detail: nat)
    | Callback(fn: nat)
    | Noop(fn: nat)     // what is left of a callback
    | Other(detail: nat)

  const MAX_PRIORITY: nat := 0xFFFF_FFFF

  datatype Queue = Queue(pending: seq<Event>, priorities: set<nat>)

  lemma HasGreatest(s: set<nat>)
    requires s != {}
    ensures exists m :: m in s && forall p | p in s :: p <= m
  {
    var x :| x in s;
    if s != {x} {
      HasGreatest(s - {x});
      var m :| m in s - {x} && forall p | p in s - {x} :: p <= m;
      forall p | p in s
        ensures p <= if x > m then x else m
      {
        assert p == x || p in s - {x};
      }
      assert (if x > m then x else m) in s;
    }
  }

  function Greatest(s: set<nat>): (m: nat)
    requires s != {}
    ensures m in s && forall p | p in s :: p <= m
  {
    HasGreatest(s);
    var m :| m in s && forall p | p in s :: p <= m;
    m
  }

  // CurrentPriority
  function Current(priorities: set<nat>): (m: nat)
    ensures forall p | p in priorities :: p <= m
    ensures m == 0 || m in priorities
  {
    if priorities == {} then 0 else Greatest(priorities)
  }

  predicate Admitted(q: Queue, priority: nat) {
    priority >= Current(q.priorities)
  }

  // The wake condition of WaitForNonEmpty.
  predicate Ready(q: Queue, priority: nat) {
    q.pending != [] && Admitted(q, priority)
  }

  // How many events a requestor can have.
  function Available(q: Queue, size: nat, priority: nat): (n: nat)
    ensures n <= |q.pending| && n <= size
    ensures n > 0 <==> size > 0 && Ready(q, priority)
    ensures n > 0 ==> n == size || n == |q.pending|
  {
    if !Admitted(q, priority) then 0 else if size < |q.pending| then size else |q.pending|
  }

  // What InspectCallbacks leaves of an event.
  function Marked(e: Event): Event {
    if e.Callback? then Noop(e.fn) else e
  }

  // What a requestor sees of events.
  function Shown(events: seq<Event>): (r: seq<Event>)
    ensures |r| == |events|
    ensures forall i | 0 <= i < |r| :: r[i] == Marked(events[i])
  {
    seq(|events|, i requires 0 <= i < |events| => Marked(events[i]))
  }

  // The functions of the callbacks among events, in order.
  function Calls(events: seq<Event>): seq<nat> {
    if events == [] then []
    else if events[0].Callback? then [events[0].fn] + Calls(events[1..])
    else Calls(events[1..])
  }

  lemma {:induction false} CallsAppend(a: seq<Event>, b: seq<Event>)
    ensures Calls(a + b) == Calls(a) + Calls(b)
  {
    if a == [] {
      assert a + b == b;
    } else {
      CallsAppend(a[1..], b);
      assert (a + b)[1..] == a[1..] + b;
    }
  }

  // Every callback is called, in order, and nothing else is.
  lemma CallsOneMore(events: seq<Event>, e: Event)
    ensures Calls(events + [e]) == Calls(events) + if e.Callback? then [e.fn] else []
  {
    CallsAppend(events, [e]);
    assert [e][1..] == [];
  }

  lemma {:induction false} NoCallsInShown(events: seq<Event>)
    ensures Calls(Shown(events)) == []
  {
    if events != [] {
      NoCallsInShown(events[1..]);
      assert Shown(events)[1..] == Shown(events[1..]);
    }
  }

  // ---------------------------------------------------------------------------------
  // CheckForKeyPress
  // ---------------------------------------------------------------------------------

  datatype Keep = Keep(matched: bool, unmatched: bool, mouse: bool, others: bool)

  predicate Kept(codes: seq<nat>, keep: Keep, e: Event) {
    match e
    case Key(code, _, _) => if code in codes then keep.matched else keep.unmatched
    case Mouse(_) => keep.mouse
    case _ => keep.others
  }

  function Backlog(codes: seq<nat>, keep: Keep, events: seq<Event>): seq<Event> {
    if events == [] then []
    else (if Kept(codes, keep, events[0]) then [events[0]] else []) + Backlog(codes, keep, events[1..])
  }

  lemma {:induction false} BacklogAppend(codes: seq<nat>, keep: Keep, a: seq<Event>, e: Event)
    ensures Backlog(codes, keep, a + [e]) == Backlog(codes, keep, a) + if Kept(codes, keep, e) then [e] else []
  {
    if a == [] {
      assert a + [e] == [e];
    } else {
      BacklogAppend(codes, keep, a[1..], e);
      assert (a + [e])[1..] == a[1..] + [e];
    }
  }

  // Which events stay, flag by flag: keys of the list, other keys, the mouse, and everything else,
  // callbacks among it. What stays keeps its number.
  lemma {:induction false} WhatStays(codes: seq<nat>, keep: Keep, events: seq<Event>, e: Event)
    ensures multiset(Backlog(codes, keep, events))[e] ==
            if (e.Key? && e.code in codes && keep.matched) || (e.Key? && e.code !in codes && keep.unmatched)
               || (e.Mouse? && keep.mouse) || (!e.Key? && !e.Mouse? && keep.others)
            then multiset(events)[e] else 0
  {
    if events != [] {
      WhatStays(codes, keep, events[1..], e);
      assert events == [events[0]] + events[1..];
    }
  }

  predicate Pressed(codes: seq<nat>, e: Event) {
    e.Key? && e.down && e.code in codes
  }

  // `out` names the first key of the list that went down among the events, 0 for none.
  ghost predicate IsFirstPress(codes: seq<nat>, events: seq<Event>, out: nat) {
    if out == 0 then forall i | 0 <= i < |events| :: !Pressed(codes, events[i])
    else
      && out <= |codes|
      && codes[out - 1] !in codes[..out - 1]
      && exists i | 0 <= i < |events| ::
           && Pressed(codes, events[i]) && events[i].code == codes[out - 1]
           && forall j | 0 <= j < i :: !Pressed(codes, events[j])
  }

  // The first key of the list that goes down decides, by its first place in the list, whatever follows.
  lemma FirstPressDecides(codes: seq<nat>, front: seq<Event>, code: nat, detail: nat, rest: seq<Event>, out: nat)
    requires code in codes
    requires forall i | 0 <= i < |front| :: !(front[i].Key? && front[i].down && front[i].code in codes)
    ensures IsFirstPress(codes, front + [Key(code, true, detail)] + rest, out) <==>
            0 < out <= |codes| && codes[out - 1] == code && code !in codes[..out - 1]
  {
    var all := front + [Key(code, true, detail)] + rest;
    assert all[|front|] == Key(code, true, detail);
    assert forall i | 0 <= i < |front| :: all[i] == front[i] && !Pressed(codes, all[i]);
    assert Pressed(codes, all[|front|]);
  }

  // Keys that go up, other keys and other events are none.
  lemma NoPress(codes: seq<nat>, events: seq<Event>)
    requires forall i | 0 <= i < |events| :: !(events[i].Key? && events[i].down && events[i].code in codes)
    ensures forall out :: IsFirstPress(codes, events, out) <==> out == 0
  {
  }

  lemma {:induction false} EverythingKept(codes: seq<nat>, events: seq<Event>)
    ensures Backlog(codes, Keep(true, true, true, true), events) == events
  {
    if events != [] {
      EverythingKept(codes, events[1..]);
    }
  }

  // Looking again at what was kept changes nothing and invokes nothing.
  lemma {:induction false} CheckingAgainChangesNothing(codes: seq<nat>, keep: Keep, events: seq<Event>)
    ensures var left := Backlog(codes, keep, Shown(events));
            Backlog(codes, keep, Shown(left)) == left && Calls(left) == []
  {
    if events != [] {
      CheckingAgainChangesNothing(codes, keep, events[1..]);
      var left, more := Backlog(codes, keep, Shown(events)), Backlog(codes, keep, Shown(events[1..]));
      assert Shown(events)[1..] == Shown(events[1..]);
      if Kept(codes, keep, Shown(events)[0]) {
        assert left == [Shown(events)[0]] + more;
        assert Shown(left) == [Shown(events)[0]] + Shown(more);
      } else {
        assert left == more;
      }
    }
  }

  class Input {
    var pending: seq<Event>
    var priorities: set<nat>

    function Contents(): Queue
      reads this
    {
      Queue(pending, priorities)
    }

    constructor ()
      ensures Contents() == Queue([], {})
    {
      pending, priorities := [], {};
    }

    method Enqueue(data: seq<Event>) returns (notify: bool)
      modifies this
      ensures Contents() == old(Contents()).(pending := old(pending) + data)
      ensures notify <==> data != []
    {
      notify := false;
      if |data| != 0 {
        var i := 0;
        while i < |data|
          invariant i <= |data| && priorities == old(priorities)
          invariant pending == old(pending) + data[..i]
        {
          pending := pending + [data[i]];
          i := i + 1;
        }
        notify := true;
      }
    }

    method Peek(size: nat, priority: nat) returns (data: seq<Event>)
      ensures data == Shown(pending[..Available(Contents(), size, priority)])
    {
      data := [];
      if priority < Current(priorities) {
        return;
      }
      while |data| < size && |data| < |pending|
        invariant |data| <= size && |data| <= |pending| && data == pending[..|data|]
      {
        data := data + [pending[|data|]];
      }
      ghost var calls;
      data, calls := InspectCallbacks(data, false);
    }

    // Also gives the callbacks that were invoked.
    method Dequeue(size: nat, priority: nat) returns (data: seq<Event>, calls: seq<nat>)
      modifies this
      ensures var n := Available(old(Contents()), size, priority);
              && Contents() == old(Contents()).(pending := old(pending)[n..])
              && data == Shown(old(pending)[..n])
              && calls == Calls(old(pending)[..n])
    {
      data, calls := [], [];
      if priority < Current(priorities) {
        return;
      }
      while |data| < size && |pending| > 0
        invariant |data| <= size && |data| <= |old(pending)| && priorities == old(priorities)
        invariant data == old(pending)[..|data|] && pending == old(pending)[|data|..]
      {
        data := data + [pending[0]];
        pending := pending[1..];
      }
      data, calls := InspectCallbacks(data, true);
    }

    method Count(priority: nat) returns (n: nat)
      ensures n == Available(Contents(), |pending|, priority)
    {
      n := if priority >= Current(priorities) then |pending| else 0;
    }

    method Flush(priority: nat) returns (n: nat)
      modifies this
      ensures n == Available(old(Contents()), |old(pending)|, priority)
      ensures Contents() == old(Contents()).(pending := old(pending)[n..])
    {
      if priority < Current(priorities) {
        return 0;
      }
      n := |pending|;
      pending := [];
    }

    method RaiseRequestorPriority() returns (priority: nat)
      requires Current(priorities) < MAX_PRIORITY
      modifies this
      ensures Contents() == old(Contents()).(priorities := old(priorities) + {priority})
      ensures forall p | p in old(priorities) :: p < priority
      ensures Current(priorities) == priority == Current(old(priorities)) + 1
    {
      priority := Current(priorities) + 1;
      priorities := priorities + {priority};
    }

    method LowerRequestorPriority(released: nat) returns (notify: bool)
      requires released in priorities
      modifies this
      ensures Contents() == old(Contents()).(priorities := old(priorities) - {released})
      ensures notify <==> pending != []
    {
      priorities := priorities - {released};
      notify := |pending| != 0;
    }

    // The other queue is deleted afterwards.
    method JoinConsoleInput(other: Input) returns (notify: bool)
      requires other != this
      modifies this
      ensures Contents() == old(Contents()).(pending := old(pending) + other.pending)
      ensures notify <==> other.pending != []
    {
      notify := false;
      if |other.pending| != 0 {
        var i := 0;
        while i < |other.pending|
          invariant i <= |other.pending| && priorities == old(priorities)
          invariant pending == old(pending) + other.pending[..i]
        {
          pending := pending + [other.pending[i]];
          i := i + 1;
        }
        notify := true;
      }
    }

    method DequeueOne() returns (rec: Event, calls: seq<nat>)
      requires Ready(Contents(), 0)
      modifies this
      ensures Contents() == old(Contents()).(pending := old(pending)[1..])
      ensures rec == Marked(old(pending)[0]) && calls == Calls([old(pending)[0]])
    {
      var recs;
      recs, calls := Dequeue(1, 0);
      assert old(pending)[..1] == [old(pending)[0]];
      rec := recs[0];
    }

    // With no other thread at work: the whole queue is looked through at priority 0, every
    // callback in it is invoked, and what the flags keep goes back in order.
    method CheckForKeyPress(codes: seq<nat>, keep: Keep) returns (out: nat, calls: seq<nat>)
      modifies this
      ensures if Admitted(old(Contents()), 0) then
                && priorities == old(priorities)
                && Checked(codes, keep, old(pending), out, calls, pending)
              else
                out == 0 && calls == [] && Contents() == old(Contents())
    {
      var backlog: seq<Event> := [];
      out, calls := 0, [];
      ghost var was, n := pending, 0;
      while |pending| > 0 && 0 >= Current(priorities)
        invariant n <= |was| && pending == was[n..] && priorities == old(priorities)
        invariant n > 0 ==> Admitted(old(Contents()), 0)
        invariant Checked(codes, keep, was[..n], out, calls, backlog)
        decreases |pending|
      {
        ghost var e := was[n];
        CheckedNext(codes, keep, was[..n], e, out, calls, backlog);
        var rec, more := DequeueOne();
        calls := calls + more;
        out, backlog := Consider(codes, keep, rec, out, backlog);
        assert was[..n + 1] == was[..n] + [e];
        n := n + 1;
      }
      assert was[..|was|] == was;
      if |backlog| != 0 {
        var notify := Enqueue(backlog);
      }
    }
  }

  // What CheckForKeyPress makes of events: the pressed key, the callbacks invoked, what goes back.
  ghost predicate Checked(
    codes: seq<nat>, keep: Keep, events: seq<Event>, out: nat, calls: seq<nat>, backlog: seq<Event>) {
    IsFirstPress(codes, events, out) && calls == Calls(events) && backlog == Backlog(codes, keep, Shown(events))
  }

  ghost predicate NextPress(codes: seq<nat>, rec: Event, out: nat, now: nat) {
    if out == 0 && Pressed(codes, rec) then
      0 < now <= |codes| && codes[now - 1] == rec.code && rec.code !in codes[..now - 1]
    else
      now == out
  }

  lemma CheckedNext(
    codes: seq<nat>, keep: Keep, events: seq<Event>, e: Event, out: nat, calls: seq<nat>, backlog: seq<Event>)
    requires Checked(codes, keep, events, out, calls, backlog)
    ensures forall now | NextPress(codes, Marked(e), out, now) ::
              Checked(codes, keep, events + [e], now, calls + Calls([e]),
                      backlog + if Kept(codes, keep, Marked(e)) then [Marked(e)] else [])
  {
    CallsAppend(events, [e]);
    assert Shown(events + [e]) == Shown(events) + [Marked(e)];
    BacklogAppend(codes, keep, Shown(events), Marked(e));
    forall now | NextPress(codes, Marked(e), out, now)
      ensures IsFirstPress(codes, events + [e], now)
    {
      PressNext(codes, events, e, out, now);
    }
  }

  lemma PressNext(codes: seq<nat>, events: seq<Event>, e: Event, out: nat, now: nat)
    requires IsFirstPress(codes, events, out) && NextPress(codes, Marked(e), out, now)
    ensures IsFirstPress(codes, events + [e], now)
  {
    var all := events + [e];
    if out == 0 {
      assert all[|events|] == e;
    } else {
      var i :| 0 <= i < |events| && Pressed(codes, events[i]) && events[i].code == codes[out - 1] &&
        forall j | 0 <= j < i :: !Pressed(codes, events[j]);
      assert all[i] == events[i];
    }
  }

  // What is made of one event.
  method Consider(codes: seq<nat>, keep: Keep, rec: Event, out: nat, backlog: seq<Event>)
    returns (now: nat, left: seq<Event>)
    ensures NextPress(codes, rec, out, now)
    ensures left == backlog + if Kept(codes, keep, rec) then [rec] else []
  {
    now, left := out, backlog;
    if rec.Key? {
      var i := 0;
      while i != |codes| && codes[i] != rec.code
        invariant 0 <= i <= |codes| && rec.code !in codes[..i]
      {
        i := i + 1;
      }
      if i != |codes| && rec.down && out == 0 {
        now := i + 1;
      }
      if i == |codes| && keep.unmatched {
        left := left + [rec];
      }
      if i != |codes| && keep.matched {
        left := left + [rec];
      }
    } else if rec.Mouse? {
      if keep.mouse {
        left := left + [rec];
      }
    } else if keep.others {
      left := left + [rec];
    }
  }

  method InspectCallbacks(data: seq<Event>, invoke: bool) returns (shown: seq<Event>, calls: seq<nat>)
    ensures shown == Shown(data)
    ensures calls == if invoke then Calls(data) else []
  {
    shown, calls := data, [];
    var i := 0;
    while i < |data|
      invariant i <= |data| && shown == Shown(data[..i]) + data[i..]
      invariant calls == if invoke then Calls(data[..i]) else []
    {
      CallsAppend(data[..i], [data[i]]);
      assert data[..i + 1] == data[..i] + [data[i]];
      if data[i].Callback? {
        shown := shown[i := Noop(data[i].fn)];
        if invoke {
          calls := calls + [data[i].fn];
        }
      }
      i := i + 1;
    }
    assert data[..i] == data;
  }
}
