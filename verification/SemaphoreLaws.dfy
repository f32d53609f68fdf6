/** What callers of P and V can rely on, in every run (thread/synch.c:48-93). */
module SemaphoreLaws {
  import opened Lib
  import opened Fifo
  import opened Semaphore

  /** How far a thread is with its call. */
  datatype Doing =
    | Outside     // in neither P nor V
    | Wanting     // in P, without a unit
    | Having      // in P, with the unit that it came for
    | Giving      // in V, still with its unit
    | Given       // in V, after adding it to the count

  function DoingAt(pc: Pc): Doing {
    match pc
    case Idle => Outside
    case PStart | PEmpty | PHandover | PSwitch | Asleep | Handed | Woken => Wanting
    case PTaken => Having
    case VStart => Giving
    case VRaised | VPopped(_) | VWaking(_) | VDone => Given
  }

  function DoingIn(s: State, t: Tid): Doing {
    if t in s.pc then DoingAt(s.pc[t]) else Outside
  }

  /** A step in which t takes a unit of the count, and one in which it adds one. */
  ghost predicate Takes(s: State, s': State, t: Tid) {
    DoingIn(s, t) == Wanting && DoingIn(s', t) == Having && s'.count == s.count - 1
  }

  ghost predicate Gives(s: State, s': State, t: Tid) {
    DoingIn(s, t) == Giving && DoingIn(s', t) == Given && s'.count == s.count + 1
  }

  /** All that a step of u can change of what t is doing. */
  ghost predicate Moves(s: State, s': State, u: Tid, t: Tid) {
    var before, after := DoingIn(s, t), DoingIn(s', t);
    || after == before
    || (before == Outside && u == t && Call(s, s', t) && (after == Wanting || after == Giving))
    || Takes(s, s', t) || Gives(s, s', t)
    || (before == Having && after == Outside && s'.returnedPs == s.returnedPs + 1)
    || (before == Given && after == Outside && s'.returnedVs == s.returnedVs + 1)
  }

  lemma FirstSleeper(s: State)
    requires ChannelAgrees(s)
    ensures s.chan != [] ==> s.chan[0] in s.pc && s.pc[s.chan[0]].Asleep?
  {
  }

  lemma HandedOne(s: State, u: Tid)
    requires LocksAgree(s) && ChannelAgrees(s) && u in s.pc && s.pc[u].VWaking? && s.pc[u].target.Some?
    ensures s.pc[u].target.value in s.pc && s.pc[s.pc[u].target.value].Handed?
  {
  }

  lemma OwnMoves(s: State, t: Tid)
    requires Inv(s) && Ready(s, t)
    ensures Moves(s, After(s, t), t, t)
  {
    hide NoLostWakeup, Conserved, LocksAgree, ChannelAgrees, Call;
    FirstSleeper(s);
    if s.pc[t].VWaking? && s.pc[t].target.Some? {
      HandedOne(s, t);
    }
  }

  /** Besides itself, a thread moves only one that is asleep or in its hands. */
  lemma OtherMoves(s: State, u: Tid, t: Tid)
    requires Inv(s) && Ready(s, u) && t != u
    ensures DoingIn(After(s, u), t) == DoingIn(s, t)
  {
    hide NoLostWakeup, Conserved, LocksAgree, ChannelAgrees;
    FirstSleeper(s);
    if s.pc[u].VWaking? && s.pc[u].target.Some? {
      HandedOne(s, u);
    }
  }

  /** What every step can change, for every thread. */
  lemma StepMoves(s: State, s': State, u: Tid, t: Tid)
    requires Inv(s) && Step(s, s', u)
    ensures Moves(s, s', u, t)
  {
    hide Inv, After;
    if Ready(s, u) && s' == After(s, u) {
      if t == u { OwnMoves(s, t); } else { OtherMoves(s, u, t); }
    }
  }

  /** The count changes only as a thread takes a unit or adds one. */
  lemma OnlyTakesAndGives(s: State, s': State, u: Tid)
    requires Inv(s) && Step(s, s', u)
    ensures s'.count == s.count || Takes(s, s', u) || Gives(s, s', u)
  {
    hide NoLostWakeup, Conserved, LocksAgree, ChannelAgrees;
    FirstSleeper(s);
  }

  // ---------------------------------------------------------------- every run

  lemma InvAt(trace: seq<State>, k: nat)
    requires Run(trace) && k < |trace|
    ensures Inv(trace[k])
  {
    hide Inv, Init, Next;
    assert forall i :: 0 <= i < k ==> Next(trace[i], trace[i + 1]);
    RunKeeps(trace[..k + 1]);
  }

  ghost predicate StepOf(s: State, s': State, t: Tid) {
    exists u :: Step(s, s', u) && Moves(s, s', u, t)
  }

  lemma MovesAt(trace: seq<State>, k: nat, t: Tid)
    requires Run(trace) && k < |trace| - 1
    ensures StepOf(trace[k], trace[k + 1], t)
  {
    hide Inv, Init, Step, Moves;
    InvAt(trace, k);
    assert Next(trace[k], trace[k + 1]);
    var u :| Step(trace[k], trace[k + 1], u);
    StepMoves(trace[k], trace[k + 1], u, t);
  }

  /** Thread t makes a call with step i, and j is the first time that it is back from it. */
  ghost predicate FirstReturn(trace: seq<State>, i: nat, j: nat, t: Tid) {
    && i < j < |trace| && DoingIn(trace[i], t) == Outside
    && (forall k :: i < k < j ==> DoingIn(trace[k], t) != Outside) && DoingIn(trace[j], t) == Outside
  }

  ghost predicate TakenBetween(trace: seq<State>, i: nat, j: nat, t: Tid)
    requires j < |trace|
  {
    exists k :: i < k < j && Takes(trace[k], trace[k + 1], t)
  }

  ghost predicate GivenBetween(trace: seq<State>, i: nat, j: nat, t: Tid)
    requires j < |trace|
  {
    exists k :: i < k < j && Gives(trace[k], trace[k + 1], t)
  }

  lemma {:induction false} Reaches(trace: seq<State>, i: nat, j: nat, t: Tid)
    requires Run(trace) && i < j < |trace|
    requires forall k :: i < k <= j ==> DoingIn(trace[k], t) != Outside
    ensures var first, now := DoingIn(trace[i + 1], t), DoingIn(trace[j], t);
            && (first == Wanting ==> now == Wanting || (now == Having && TakenBetween(trace, i, j, t)))
            && (first == Giving ==> now == Giving || (now == Given && GivenBetween(trace, i, j, t)))
  {
    hide Run, Takes, Gives;
    if j > i + 1 {
      Reaches(trace, i, j - 1, t);
      MovesAt(trace, j - 1, t);
      var s, s' := trace[j - 1], trace[j - 1 + 1];
      Classes(s, s', t);
      assert Takes(s, s', t) ==> TakenBetween(trace, i, j, t);
      assert Gives(s, s', t) ==> GivenBetween(trace, i, j, t);
    }
  }

  lemma Classes(s: State, s': State, t: Tid)
    requires StepOf(s, s', t) && DoingIn(s', t) != Outside
    ensures DoingIn(s, t) == Wanting ==> DoingIn(s', t) == Wanting || (DoingIn(s', t) == Having && Takes(s, s', t))
    ensures DoingIn(s, t) == Giving ==> DoingIn(s', t) == Giving || (DoingIn(s', t) == Given && Gives(s, s', t))
    ensures DoingIn(s, t) == Having ==> DoingIn(s', t) == Having
    ensures DoingIn(s, t) == Given ==> DoingIn(s', t) == Given
  {
    hide Step;
  }

  /** P does not return before it has taken a unit. */
  lemma PReturnsWithUnit(trace: seq<State>, i: nat, j: nat, t: Tid)
    requires Run(trace) && FirstReturn(trace, i, j, t) && DoingIn(trace[i + 1], t) == Wanting
    ensures TakenBetween(trace, i, j, t) && trace[j].returnedPs == trace[j - 1].returnedPs + 1
  {
    hide Run, Step;
    Reaches(trace, i, j - 1, t);
    MovesAt(trace, j - 1, t);
  }

  /** V does not return before it has added one. */
  lemma VReturnsWithout(trace: seq<State>, i: nat, j: nat, t: Tid)
    requires Run(trace) && FirstReturn(trace, i, j, t) && DoingIn(trace[i + 1], t) == Giving
    ensures GivenBetween(trace, i, j, t) && trace[j].returnedVs == trace[j - 1].returnedVs + 1
  {
    hide Run, Step;
    Reaches(trace, i, j - 1, t);
    MovesAt(trace, j - 1, t);
  }

  // ---------------------------------------------------------------- first come, first served

  lemma StepServes(s: State, s': State, u: Tid)
    requires Inv(s) && Step(s, s', u)
    ensures Served(s.chan, s'.chan)
  {
    hide Served, NoLostWakeup, Conserved, LocksAgree, InHand;
    Unserved(s.chan);
    if Ready(s, u) && s' == After(s, u) {
      if s.pc[u].PSwitch? {
        Joined(s.chan, u);
      } else if s.pc[u].VRaised? && s.chan != [] {
        Took(s.chan, 1);
      }
    }
  }

  /** The channel through a run. */
  function Channels(trace: seq<State>): seq<seq<Tid>> {
    seq(|trace|, k requires 0 <= k < |trace| => trace[k].chan)
  }

  lemma Histories(trace: seq<State>)
    requires Run(trace)
    ensures History(Channels(trace))
  {
    hide LocksAgree, NoLostWakeup, Conserved, Init, Served, Step, InHand;
    forall k | 0 <= k < |trace|
      ensures Distinct(trace[k].chan)
    {
      InvAt(trace, k);
    }
    forall k | 0 <= k < |trace| - 1
      ensures Served(trace[k].chan, trace[k + 1].chan)
    {
      InvAt(trace, k);
      assert Next(trace[k], trace[k + 1]);
      var u :| Step(trace[k], trace[k + 1], u);
      StepServes(trace[k], trace[k + 1], u);
    }
  }

  /** Threads are woken in the order in which they went to sleep: as long as one sleeps, nobody who was
      behind it or comes later is taken from the channel before it. */
  lemma FirstCome(trace: seq<State>, i: nat, j: nat, t: Tid, u: Tid)
    requires Run(trace) && i <= j < |trace| && t != u
    requires forall k :: i <= k <= j ==> t in trace[k].chan
    requires u !in trace[i].chan || Before(trace[i].chan, t, u)
    ensures u in trace[i].chan ==> u in trace[j].chan
    ensures u !in trace[j].chan || Before(trace[j].chan, t, u)
  {
    hide Run, History, Before;
    Histories(trace);
    NotOvertaken(Channels(trace), i, j, t, u);
  }
}
