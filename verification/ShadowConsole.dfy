/**
  Freezing and unfreezing the console output (WinPort/src/APIConsole.cpp).

  A shadow console is published through an atomic pointer. Every user of the output counts
  itself in before it reads the pointer, and the thread that takes the shadow away waits for
  the count to reach zero before it joins (deletes) the shadow. Each step below is one atomic
  access of one thread; a run is any interleaving.
  */
module ShadowConsole {
  import opened Wrappers

  // A thread inside the lifetime of a ChooseConOut object made for the main console.
  datatype UserPc =
    | Outside
    | Incremented              // counted in, pointer not yet read
    | SawNull                  // read a null pointer, not yet counted out
    | UsesMain
    | UsesShadow(id: nat)      // until the destructor counts it out

  // A thread that calls FreezeConsoleOutput and UnfreezeConsoleOutput.
  datatype FreezerPc =
    | Rest
    | SawUnfrozen              // FreezeConsoleOutput read a null pointer
    | Forked(id: nat)          // made a shadow, not yet published
    | Displaced(id: nat)       // the exchange returned another shadow, about to join it
    | Draining(id: nat)        // UnfreezeConsoleOutput took the shadow, polls the count
    | Drained(id: nat)         // saw the count at zero, about to join

  datatype State = State(
    shadow: Option<nat>, count: int, users: seq<UserPc>, freezers: seq<FreezerPc>,
    forked: nat, joined: multiset<nat>)

  ghost predicate Init(s: State, users: nat, freezers: nat) {
    && s.shadow == None && s.count == 0 && s.forked == 0 && s.joined == multiset{}
    && |s.users| == users && (forall u | 0 <= u < users :: s.users[u] == Outside)
    && |s.freezers| == freezers && (forall f | 0 <= f < freezers :: s.freezers[f] == Rest)
  }

  // ChooseConOut, from its constructor to its destructor.
  ghost predicate UserStep(s: State, t: State, u: nat)
    requires u < |s.users|
  {
    match s.users[u]
    case Outside => t == s.(count := s.count + 1, users := s.users[u := Incremented])
    case Incremented =>
      t == s.(users := s.users[u := if s.shadow.Some? then UsesShadow(s.shadow.value) else SawNull])
    case SawNull => t == s.(count := s.count - 1, users := s.users[u := UsesMain])
    case UsesMain => t == s.(users := s.users[u := Outside])
    case UsesShadow(_) => t == s.(count := s.count - 1, users := s.users[u := Outside])
  }

  // FreezeConsoleOutput and UnfreezeConsoleOutput.
  ghost predicate FreezerStep(s: State, t: State, f: nat)
    requires f < |s.freezers|
  {
    match s.freezers[f]
    case Rest =>
      || t == s.(freezers := s.freezers[f := if s.shadow.None? then SawUnfrozen else Rest])
      || t == s.(shadow := None, freezers := s.freezers[f := if s.shadow.Some? then Draining(s.shadow.value) else Rest])
    case SawUnfrozen => t == s.(forked := s.forked + 1, freezers := s.freezers[f := Forked(s.forked)])
    case Forked(id) =>
      t == s.(shadow := Some(id),
              freezers := s.freezers[f := if s.shadow.Some? then Displaced(s.shadow.value) else Rest])
    case Displaced(id) => t == s.(joined := s.joined + multiset{id}, freezers := s.freezers[f := Rest])
    case Draining(id) => t == s.(freezers := s.freezers[f := if s.count == 0 then Drained(id) else Draining(id)])
    case Drained(id) => t == s.(joined := s.joined + multiset{id}, freezers := s.freezers[f := Rest])
  }

  ghost predicate Next(s: State, t: State) {
    || (exists u :: 0 <= u < |s.users| && UserStep(s, t, u))
    || (exists f :: 0 <= f < |s.freezers| && FreezerStep(s, t, f))
  }

  ghost predicate IsRun(run: seq<State>, users: nat, freezers: nat) {
    && run != [] && Init(run[0], users, freezers)
    && forall i | 0 <= i < |run| - 1 :: Next(run[i], run[i + 1])
  }

  // No user holds a deleted shadow, and no shadow is deleted twice.
  ghost predicate Safe(s: State) {
    && (forall u | 0 <= u < |s.users| && s.users[u].UsesShadow? :: s.users[u].id !in s.joined)
    && (forall id :: s.joined[id] <= 1)
  }

  predicate Holds(pc: FreezerPc, id: nat) {
    pc == Forked(id) || pc == Draining(id) || pc == Drained(id)
  }

  // Every shadow made so far is published, or held by the freezing thread, or joined.
  ghost predicate NothingLost(s: State) {
    && (forall f | 0 <= f < |s.freezers| :: !s.freezers[f].Displaced?)
    && forall id | 0 <= id < s.forked ::
         id in s.joined || s.shadow == Some(id) || (s.freezers != [] && Holds(s.freezers[0], id))
  }

  // The users between their increment and their decrement.
  predicate Counted(pc: UserPc) {
    pc.Incremented? || pc.SawNull? || pc.UsesShadow?
  }

  function CountUsers(users: seq<UserPc>): nat {
    if users == [] then 0 else CountUsers(users[1..]) + if Counted(users[0]) then 1 else 0
  }

  lemma {:induction false} CountAfterUpdate(users: seq<UserPc>, u: nat, pc: UserPc)
    requires u < |users|
    ensures CountUsers(users[u := pc]) ==
            CountUsers(users) + (if Counted(pc) then 1 else 0) - (if Counted(users[u]) then 1 else 0)
  {
    if u > 0 {
      assert users[u := pc][1..] == users[1..][u - 1 := pc];
      CountAfterUpdate(users[1..], u - 1, pc);
    }
  }

  lemma {:induction false} NobodyCounted(users: seq<UserPc>)
    ensures CountUsers(users) == 0 <==> forall u | 0 <= u < |users| :: !Counted(users[u])
  {
    if users != [] {
      NobodyCounted(users[1..]);
      assert (forall u | 0 <= u < |users| :: !Counted(users[u])) ==>
        forall u | 0 <= u < |users[1..]| :: !Counted(users[1..][u]);
      assert forall u | 1 <= u < |users| :: users[u] == users[1..][u - 1];
    }
  }

  // Whatever the number of freezing threads, the count is the number of counted-in users.
  ghost predicate CountIsExact(s: State) {
    s.count == CountUsers(s.users)
  }

  lemma CountKept(s: State, t: State)
    requires CountIsExact(s) && Next(s, t)
    ensures CountIsExact(t)
  {
    if u :| 0 <= u < |s.users| && UserStep(s, t, u) {
      CountAfterUpdate(s.users, u, t.users[u]);
    }
  }

  // With one freezing thread at most: where each shadow can be.
  ghost predicate Inv(s: State) {
    && CountIsExact(s)
    && NothingLost(s)
    && |s.freezers| <= 1
    && (forall id :: id in s.joined ==> id < s.forked)
    && (forall id :: s.joined[id] <= 1)
    && (s.shadow.Some? ==> s.shadow.value < s.forked && s.shadow.value !in s.joined)
    && (forall u | 0 <= u < |s.users| && s.users[u].UsesShadow? ::
          s.shadow == Some(s.users[u].id) || s.freezers == [Draining(s.users[u].id)])
    && (forall f | 0 <= f < |s.freezers| ::
          && (s.freezers[f] != Rest ==> s.shadow.None?)
          && (s.freezers[f].Forked? || s.freezers[f].Draining? || s.freezers[f].Drained? ==>
                s.freezers[f].id < s.forked && s.freezers[f].id !in s.joined))
  }

  lemma UserStepKeepsInv(s: State, t: State, u: nat)
    requires Inv(s) && u < |s.users| && UserStep(s, t, u)
    ensures Inv(t)
  {
    CountAfterUpdate(s.users, u, t.users[u]);
  }

  lemma RestKeepsInv(s: State, t: State, f: nat)
    requires Inv(s) && f < |s.freezers| && FreezerStep(s, t, f) && s.freezers[f].Rest?
    ensures Inv(t)
  {
    assert t.users == s.users && |t.freezers| == 1;
  }

  lemma ForkKeepsInv(s: State, t: State, f: nat)
    requires Inv(s) && f < |s.freezers| && FreezerStep(s, t, f) && s.freezers[f].SawUnfrozen?
    ensures Inv(t)
  {
    assert t.freezers == [Forked(s.forked)];
  }

  lemma PublishKeepsInv(s: State, t: State, f: nat)
    requires Inv(s) && f < |s.freezers| && FreezerStep(s, t, f) && s.freezers[f].Forked?
    ensures Inv(t)
  {
    assert t.freezers == [Rest];
  }

  // When the count is zero, no user holds the shadow.
  lemma DrainKeepsInv(s: State, t: State, f: nat)
    requires Inv(s) && f < |s.freezers| && FreezerStep(s, t, f) && s.freezers[f].Draining?
    ensures Inv(t)
  {
    NobodyCounted(s.users);
    assert |t.freezers| == 1 && t.users == s.users;
  }

  lemma JoinKeepsInv(s: State, t: State, f: nat)
    requires Inv(s) && f < |s.freezers| && FreezerStep(s, t, f) && s.freezers[f].Drained?
    ensures Inv(t)
  {
    assert t.freezers == [Rest];
  }

  lemma FreezerStepKeepsInv(s: State, t: State, f: nat)
    requires Inv(s) && f < |s.freezers| && FreezerStep(s, t, f)
    ensures Inv(t)
  {
    match s.freezers[f]
    case Rest => RestKeepsInv(s, t, f);
    case SawUnfrozen => ForkKeepsInv(s, t, f);
    case Forked(_) => PublishKeepsInv(s, t, f);
    case Draining(_) => DrainKeepsInv(s, t, f);
    case Drained(_) => JoinKeepsInv(s, t, f);
  }

  lemma {:induction false} RunKeepsInv(run: seq<State>, users: nat, freezers: nat)
    requires IsRun(run, users, freezers) && freezers <= 1
    ensures Inv(run[|run| - 1])
  {
    if |run| == 1 {
      NobodyCounted(run[0].users);
    } else {
      var before := run[..|run| - 1];
      RunKeepsInv(before, users, freezers);
      var s, t := run[|run| - 2], run[|run| - 1];
      if u :| 0 <= u < |s.users| && UserStep(s, t, u) {
        UserStepKeepsInv(s, t, u);
      } else {
        var f :| 0 <= f < |s.freezers| && FreezerStep(s, t, f);
        FreezerStepKeepsInv(s, t, f);
      }
    }
  }

  // Every interleaving of one freezing thread with any number of users is safe, never reaches the
  // displaced-shadow join of FreezeConsoleOutput, and keeps track of every shadow.
  lemma OneFreezerIsSafe(run: seq<State>, users: nat, freezers: nat)
    requires IsRun(run, users, freezers) && freezers <= 1
    ensures Safe(run[|run| - 1])
    ensures NothingLost(run[|run| - 1])
  {
    RunKeepsInv(run, users, freezers);
    var last := run[|run| - 1];
    forall u | 0 <= u < |last.users| && last.users[u].UsesShadow?
      ensures last.users[u].id !in last.joined
    {
      if last.shadow != Some(last.users[u].id) {
        assert last.freezers[0].id !in last.joined;
      }
    }
  }

  lemma {:induction false} CountIsExactInRuns(run: seq<State>, users: nat, freezers: nat)
    requires IsRun(run, users, freezers)
    ensures CountIsExact(run[|run| - 1])
  {
    if |run| == 1 {
      NobodyCounted(run[0].users);
    } else {
      CountIsExactInRuns(run[..|run| - 1], users, freezers);
      CountKept(run[|run| - 2], run[|run| - 1]);
    }
  }

  // Once UnfreezeConsoleOutput has taken the shadow, no further user can choose it.
  lemma DrainingOnlyShrinks(s: State, t: State)
    requires Inv(s) && Next(s, t) && |s.freezers| == 1 && (s.freezers[0].Draining? || s.freezers[0].Drained?)
    ensures forall u | 0 <= u < |t.users| && t.users[u].UsesShadow? :: s.users[u] == t.users[u]
  {
  }

  // Two threads that both find the output unfrozen: the second one joins the shadow of the
  // first while user 0 holds it.
  lemma TwoFreezersRun(users: nat, freezers: nat) returns (run: seq<State>)
    requires users >= 1 && freezers >= 2
    ensures IsRun(run, users, freezers) && !Safe(run[|run| - 1])
  {
    var s0 := State(None, 0, seq(users, _ => Outside), seq(freezers, _ => Rest), 0, multiset{});
    var s1 := s0.(freezers := s0.freezers[0 := SawUnfrozen]);
    var s2 := s1.(freezers := s1.freezers[1 := SawUnfrozen]);
    var s3 := s2.(forked := 1, freezers := s2.freezers[0 := Forked(0)]);
    var s4 := s3.(shadow := Some(0), freezers := s3.freezers[0 := Rest]);
    var s5 := s4.(count := 1, users := s4.users[0 := Incremented]);
    var s6 := s5.(users := s5.users[0 := UsesShadow(0)]);
    var s7 := s6.(forked := 2, freezers := s6.freezers[1 := Forked(1)]);
    var s8 := s7.(shadow := Some(1), freezers := s7.freezers[1 := Displaced(0)]);
    var s9 := s8.(joined := s8.joined + multiset{0}, freezers := s8.freezers[1 := Rest]);
    assert FreezerStep(s0, s1, 0) && FreezerStep(s1, s2, 1) && FreezerStep(s2, s3, 0) && FreezerStep(s3, s4, 0);
    assert UserStep(s4, s5, 0) && UserStep(s5, s6, 0);
    assert FreezerStep(s6, s7, 1) && FreezerStep(s7, s8, 1) && FreezerStep(s8, s9, 1);
    run := [s0, s1, s2, s3, s4, s5, s6, s7, s8, s9];
    assert s9.users[0] == UsesShadow(0) && 0 in s9.joined;
  }

  // With any user at all, the protocol is safe exactly for at most one freezing thread.
  lemma SafeExactlyForOneFreezer(users: nat, freezers: nat)
    requires users >= 1
    ensures (forall run :: IsRun(run, users, freezers) ==> Safe(run[|run| - 1])) <==> freezers <= 1
  {
    if freezers <= 1 {
      forall run | IsRun(run, users, freezers)
        ensures Safe(run[|run| - 1])
      {
        OneFreezerIsSafe(run, users, freezers);
      }
    } else {
      var run := TwoFreezersRun(users, freezers);
    }
  }
}
