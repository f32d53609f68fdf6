/** What callers of lock_acquire, lock_release, cv_wait, cv_signal and cv_broadcast can rely on, in every
    run (thread/synch.c:135-169, thread/synch.c:216-234). */
module LockCvLaws {
  import opened Lib
  import opened Fifo
  import opened LockCv

  /** What a thread is doing, as its caller sees it. */
  datatype Doing =
    | Outside       // in none of the operations, without the lock
    | Acquiring     // in lock_acquire, called as such or at the end of cv_wait
    | Holding       // in none of the operations, with the lock
    | Releasing     // in lock_release
    | Waiting       // in cv_wait, before anyone has signalled it
    | Chosen        // in cv_wait, taken by a signal or a broadcast that has not made it runnable yet
    | Choosing      // in cv_signal or cv_broadcast

  function DoingAt(pc: Pc): Doing {
    match pc
    case Out => Outside
    case Entering(_) | Entered | Refused | Handover | Switching | Asleep | Handed => Acquiring
    case Inside => Holding
    case Leaving(wait) => if wait then Waiting else Releasing
    case Freed(wait) => if wait then Waiting else Releasing
    case Popped(wait, _) => if wait then Waiting else Releasing
    case Waking(wait, _) => if wait then Waiting else Releasing
    case Left(wait) => if wait then Waiting else Releasing
    case CvSwitching | CvAsleep => Waiting
    case CvHanded => Chosen
    case Signalling(_) | Signalled(_) => Choosing
  }

  /** Thread u calls cv_signal or cv_broadcast, and t is among those it takes. */
  ghost predicate Chooses(s: State, s': State, u: Tid, t: Tid) {
    && (CallSignal(s, s', u) || CallBroadcast(s, s', u))
    && u in s'.pc && s'.pc[u].Signalling? && t in s'.pc[u].targets
  }

  /** All that a step of u can change of what t is doing. */
  ghost predicate Moves(s: State, s': State, u: Tid, t: Tid)
    requires t in s.pc && t in s'.pc
  {
    var after := DoingAt(s'.pc[t]);
    match DoingAt(s.pc[t])
    case Outside => after == Outside || (after == Acquiring && u == t && CallAcquire(s, s', t))
    case Acquiring => after == Acquiring || (after == Holding && s'.holder == Some(t))
    case Holding =>
      || (after == Holding && s'.holder == Some(t))
      || (after == Releasing && u == t && CallRelease(s, s', t))
      || (after == Waiting && u == t && CallWait(s, s', t))
      || (after == Choosing && u == t && (CallSignal(s, s', t) || CallBroadcast(s, s', t)))
    case Releasing => after == Releasing || (after == Outside && s'.holder != Some(t))
    case Waiting => after == Waiting || (after == Chosen && Chooses(s, s', u, t))
    case Chosen => after == Chosen || after == Acquiring
    case Choosing => s'.holder == Some(t) && (after == Choosing || after == Holding)
  }

  /** A thread that a step leaves where it is. */
  lemma Stays(s: State, s': State, u: Tid, t: Tid)
    requires Inv(s') && t in s.pc && t in s'.pc && s'.pc[t] == s.pc[t]
    ensures Moves(s, s', u, t)
  {
    hide LocksAgree, ChannelAgrees, CvChannelAgrees, RefusedMeansHeld, NoLostWakeup;
    HolderFacts(s', t);
  }

  lemma CallMoves(s: State, s': State, u: Tid, t: Tid)
    requires Inv(s) && Inv(s') && t in s.pc && OwnCall(s, s', u)
    ensures t in s'.pc && Moves(s, s', u, t)
  {
    hide Inv;
    if t != u {
      hide Moves;
      Stays(s, s', u, t);
    }
  }

  lemma Taken(s: State, u: Tid, n: nat, t: Tid)
    requires n <= |s.cvChan| && u in s.pc && t in s.pc
    ensures var s' := TakeWaiters(s, u, n);
            && t in s'.pc && u in s'.pc && s'.pc[u] == Signalling(s.cvChan[..n])
            && (t != u ==> s'.pc[t] == if t in s.cvChan[..n] then CvHanded else s.pc[t])
  {
  }

  lemma OnChannel(s: State, n: nat, t: Tid)
    requires Inv(s) && n <= |s.cvChan| && t in s.cvChan[..n]
    ensures t in s.pc && s.pc[t].CvAsleep?
  {
    hide LocksAgree, ChannelAgrees, RefusedMeansHeld, NoLostWakeup, InHands;
    assert t in s.cvChan;
  }

  lemma TakeMoves(s: State, s': State, u: Tid, t: Tid)
    requires Inv(s) && Inv(s') && t in s.pc && (CallSignal(s, s', u) || CallBroadcast(s, s', u))
    ensures t in s'.pc && Moves(s, s', u, t)
  {
    hide LocksAgree, ChannelAgrees, CvChannelAgrees, RefusedMeansHeld, NoLostWakeup, TakeWaiters;
    var n := if CallSignal(s, s', u) then if s.cvChan == [] then 0 else 1 else |s.cvChan|;
    Taken(s, u, n, t);
    HolderFacts(s', t);
    if t != u {
      if t in s.cvChan[..n] {
        OnChannel(s, n, t);
      } else {
        hide Moves;
        Stays(s, s', u, t);
      }
    }
  }

  lemma OwnMoves(s: State, t: Tid)
    requires Inv(s) && Ready(s, t) && Inv(After(s, t))
    ensures t in After(s, t).pc && Moves(s, After(s, t), t, t)
  {
    hide LocksAgree, ChannelAgrees, CvChannelAgrees, RefusedMeansHeld, NoLostWakeup, InHand, InHands;
    hide CallAcquire, CallRelease, CallWait, CallSignal, CallBroadcast, Chooses;
    HolderFacts(s, t);
    HolderFacts(After(s, t), t);
    FirstSleeper(s);
    TargetIsHanded(s);
    TargetsAreHanded(s);
  }

  lemma OtherMoves(s: State, u: Tid, t: Tid)
    requires Inv(s) && Ready(s, u) && Inv(After(s, u)) && t in s.pc && t != u
    ensures t in After(s, u).pc && Moves(s, After(s, u), u, t)
  {
    hide LocksAgree, ChannelAgrees, CvChannelAgrees, RefusedMeansHeld, NoLostWakeup, InHand, InHands;
    hide CallAcquire, CallRelease, CallWait, CallSignal, CallBroadcast, Chooses;
    HolderFacts(s, u);
    InHandOfHolder(s, u);
    FirstSleeper(s);
    if After(s, u).pc[t] == s.pc[t] {
      hide Moves;
      Stays(s, After(s, u), u, t);
    }
  }

  /** The threads that a step of u can move besides u. */
  lemma InHandOfHolder(s: State, u: Tid)
    requires Inv(s) && Ready(s, u)
    ensures s.pc[u].Waking? && s.pc[u].target.Some? ==> s.pc[u].target.value in s.pc && s.pc[s.pc[u].target.value].Handed?
    ensures s.pc[u].Signalled? && s.pc[u].targets != [] ==> s.pc[u].targets[0] in s.pc && s.pc[s.pc[u].targets[0]].CvHanded?
  {
    hide LocksAgree, ChannelAgrees, CvChannelAgrees, RefusedMeansHeld, NoLostWakeup;
    HolderFacts(s, u);
    TargetIsHanded(s);
    TargetsAreHanded(s);
  }

  /** What every step can change, for every thread. */
  lemma StepMoves(s: State, s': State, u: Tid, t: Tid)
    requires Inv(s) && Step(s, s', u) && t in s.pc
    ensures t in s'.pc && Moves(s, s', u, t)
  {
    hide Inv, Moves, After;
    StepKeeps(s, s', u);
    if CallSignal(s, s', u) || CallBroadcast(s, s', u) {
      TakeMoves(s, s', u, t);
    } else if Ready(s, u) && s' == After(s, u) {
      if t == u { OwnMoves(s, t); } else { OtherMoves(s, u, t); }
    } else {
      CallMoves(s, s', u, t);
    }
  }

  // ---------------------------------------------------------------- every run

  lemma InvAt(trace: seq<State>, k: nat)
    requires Run(trace) && k < |trace|
    ensures Inv(trace[k])
  {
    hide Inv, Init, Next;
    assert forall i :: 0 <= i < k ==> Next(trace[i], trace[i + 1]);
    RunKeeps(trace[..k + 1]);
  }

  function DoingIn(s: State, t: Tid): Doing {
    if t in s.pc then DoingAt(s.pc[t]) else Outside
  }

  ghost predicate StepOf(s: State, s': State, t: Tid) {
    t in s.pc && t in s'.pc && exists u :: Step(s, s', u) && Moves(s, s', u, t)
  }

  lemma MovesAt(trace: seq<State>, k: nat, t: Tid)
    requires Run(trace) && k < |trace| - 1 && t in trace[k].pc
    ensures t in trace[k + 1].pc && StepOf(trace[k], trace[k + 1], t)
  {
    hide Inv, Init, Step, Moves;
    InvAt(trace, k);
    assert Next(trace[k], trace[k + 1]);
    var u :| Step(trace[k], trace[k + 1], u);
    StepMoves(trace[k], trace[k + 1], u, t);
  }

  /** Thread t makes a call with step i, and j is the first time that it is back from it. */
  ghost predicate FirstReturn(trace: seq<State>, i: nat, j: nat, t: Tid) {
    && i < j < |trace| && t in trace[i].pc
    && (forall k :: i < k < j ==> !DoingIn(trace[k], t).Outside? && !DoingIn(trace[k], t).Holding?)
    && (DoingIn(trace[j], t).Outside? || DoingIn(trace[j], t).Holding?)
  }

  /** A step is a signal or a broadcast that takes t. */
  ghost predicate ChosenIn(s: State, s': State, t: Tid) {
    exists u :: Chooses(s, s', u, t)
  }

  ghost predicate ChosenBetween(trace: seq<State>, i: nat, j: nat, t: Tid)
    requires j < |trace|
  {
    exists k :: i < k < j && ChosenIn(trace[k], trace[k + 1], t)
  }

  ghost predicate HoldsAt(s: State, t: Tid) {
    DoingIn(s, t) == Holding && s.holder == Some(t)
  }

  /** Where a thread can have got to within the operation that it called with step i. */
  ghost predicate Reached(trace: seq<State>, i: nat, j: nat, t: Tid)
    requires i < j < |trace|
  {
    var now := DoingIn(trace[j], t);
    match DoingIn(trace[i + 1], t)
    case Acquiring => now == Acquiring || HoldsAt(trace[j], t)
    case Releasing => now == Releasing || (now == Outside && trace[j].holder != Some(t))
    case Choosing => trace[j].holder == Some(t) && (now == Choosing || now == Holding)
    case Waiting => now == Waiting || (ChosenBetween(trace, i, j, t) && (now == Chosen || now == Acquiring || HoldsAt(trace[j], t)))
    case _ => true
  }

  lemma {:induction false} Reaches(trace: seq<State>, i: nat, j: nat, t: Tid)
    requires Run(trace) && i < j < |trace| && t in trace[i].pc
    requires forall k :: i < k < j ==> !DoingIn(trace[k], t).Outside? && !DoingIn(trace[k], t).Holding?
    requires DoingIn(trace[i + 1], t) == Choosing ==> trace[i + 1].holder == Some(t)
    requires DoingIn(trace[i + 1], t) != Holding && DoingIn(trace[i + 1], t) != Outside
    ensures t in trace[j].pc && Reached(trace, i, j, t)
  {
    hide Run, Step, Chooses, CallAcquire, CallRelease, CallWait, CallSignal, CallBroadcast;
    if j == i + 1 {
      MovesAt(trace, i, t);
    } else {
      Reaches(trace, i, j - 1, t);
      MovesAt(trace, j - 1, t);
      ChosenLater(trace, i, j, t);
    }
  }

  lemma ChosenLater(trace: seq<State>, i: nat, j: nat, t: Tid)
    requires i < j - 1 && j < |trace| && StepOf(trace[j - 1], trace[j], t)
    ensures ChosenBetween(trace, i, j - 1, t) ==> ChosenBetween(trace, i, j, t)
    ensures DoingIn(trace[j - 1], t) == Waiting ==> DoingIn(trace[j], t) == Waiting || ChosenBetween(trace, i, j, t)
  {
    hide Step, Chooses, CallAcquire, CallRelease, CallWait, CallSignal, CallBroadcast;
    var u :| Step(trace[j - 1], trace[j], u) && Moves(trace[j - 1], trace[j], u, t);
    if DoingIn(trace[j - 1], t) == Waiting && DoingIn(trace[j], t) != Waiting {
      assert ChosenIn(trace[j - 1], trace[j - 1 + 1], t);
    }
  }

  /** lock_acquire returns with the lock held by its caller. */
  lemma AcquireReturnsHolding(trace: seq<State>, i: nat, j: nat, t: Tid)
    requires Run(trace) && FirstReturn(trace, i, j, t) && CallAcquire(trace[i], trace[i + 1], t)
    ensures At(trace[j], t, Inside) && trace[j].holder == Some(t)
  {
    hide Run;
    Reaches(trace, i, j, t);
  }

  /** So does cv_wait, and not before a signal or a broadcast has taken its caller. */
  lemma WaitReturnsHolding(trace: seq<State>, i: nat, j: nat, t: Tid)
    requires Run(trace) && FirstReturn(trace, i, j, t) && CallWait(trace[i], trace[i + 1], t)
    ensures At(trace[j], t, Inside) && trace[j].holder == Some(t)
    ensures ChosenBetween(trace, i, j, t)
  {
    hide Run, ChosenBetween;
    Reaches(trace, i, j, t);
  }

  lemma ReleaseReturnsWithout(trace: seq<State>, i: nat, j: nat, t: Tid)
    requires Run(trace) && FirstReturn(trace, i, j, t) && CallRelease(trace[i], trace[i + 1], t)
    ensures At(trace[j], t, Out) && trace[j].holder != Some(t)
  {
    hide Run;
    Reaches(trace, i, j, t);
  }

  /** cv_signal and cv_broadcast return with the lock still held, and by then every thread that they took
      is on its way to the lock. */
  lemma SignalReturnsHolding(trace: seq<State>, i: nat, j: nat, t: Tid, u: Tid)
    requires Run(trace) && FirstReturn(trace, i, j, t) && Chooses(trace[i], trace[i + 1], t, u)
    ensures At(trace[j], t, Inside) && trace[j].holder == Some(t)
    ensures DoingIn(trace[j], u) == Acquiring
  {
    hide Run;
    SignalReaches(trace, i, j, t, u);
    NoneChosen(trace, j, t);
  }

  lemma {:induction false} SignalReaches(trace: seq<State>, i: nat, j: nat, t: Tid, u: Tid)
    requires Run(trace) && i < j < |trace| && Chooses(trace[i], trace[i + 1], t, u)
    requires forall k :: i < k < j ==> !DoingIn(trace[k], t).Outside? && !DoingIn(trace[k], t).Holding?
    ensures t in trace[j].pc && (DoingIn(trace[j], t) == Choosing || DoingIn(trace[j], t) == Holding) && trace[j].holder == Some(t)
    ensures u in trace[j].pc && (DoingIn(trace[j], u) == Chosen || DoingIn(trace[j], u) == Acquiring)
  {
    hide Run, Moves;
    if j == i + 1 {
      JustTaken(trace, i, t, u);
    } else {
      SignalReaches(trace, i, j - 1, t, u);
      MovesAt(trace, j - 1, t);
      MovesAt(trace, j - 1, u);
      StillComing(trace[j - 1], trace[j], t, u);
    }
  }

  lemma JustTaken(trace: seq<State>, i: nat, t: Tid, u: Tid)
    requires Run(trace) && i + 1 < |trace| && Chooses(trace[i], trace[i + 1], t, u)
    ensures t in trace[i + 1].pc && DoingIn(trace[i + 1], t) == Choosing && trace[i + 1].holder == Some(t)
    ensures u in trace[i + 1].pc && DoingIn(trace[i + 1], u) == Chosen
  {
    hide Run, LocksAgree, ChannelAgrees, CvChannelAgrees, RefusedMeansHeld, NoLostWakeup, TakeWaiters;
    var s := trace[i];
    InvAt(trace, i);
    InvAt(trace, i + 1);
    HolderFacts(trace[i + 1], t);
    var n := if CallSignal(s, trace[i + 1], t) then if s.cvChan == [] then 0 else 1 else |s.cvChan|;
    OnChannelToo(s, t, n, u);
    Taken(s, t, n, t);
    Taken(s, t, n, u);
  }

  lemma OnChannelToo(s: State, t: Tid, n: nat, u: Tid)
    requires Inv(s) && n <= |s.cvChan| && At(s, t, Inside) && u in TakeWaiters(s, t, n).pc[t].targets
    ensures u in s.pc && u in s.cvChan[..n] && u != t
  {
    hide LocksAgree, ChannelAgrees, CvChannelAgrees, RefusedMeansHeld, NoLostWakeup;
    OnChannel(s, n, u);
  }

  lemma StillComing(s: State, s': State, t: Tid, u: Tid)
    requires StepOf(s, s', t) && StepOf(s, s', u) && s.holder == Some(t) && DoingIn(s, t) == Choosing
    requires DoingIn(s, u) == Chosen || DoingIn(s, u) == Acquiring
    ensures (DoingIn(s', t) == Choosing || DoingIn(s', t) == Holding) && s'.holder == Some(t)
    ensures DoingIn(s', u) == Chosen || DoingIn(s', u) == Acquiring
  {
    hide Step;
  }

  /** While a thread holds the lock and is signalling nobody, nobody is in between. */
  lemma NoneChosen(trace: seq<State>, j: nat, t: Tid)
    requires Run(trace) && j < |trace| && At(trace[j], t, Inside) && trace[j].holder == Some(t)
    ensures forall u :: DoingIn(trace[j], u) != Chosen
  {
    hide Run, LocksAgree, ChannelAgrees, RefusedMeansHeld, NoLostWakeup, InHands;
    InvAt(trace, j);
    InHandsOf(trace[j], t);
  }

  // ---------------------------------------------------------------- first come, first served

  lemma StepServes(s: State, s': State, u: Tid)
    requires Inv(s) && Step(s, s', u)
    ensures Served(s.chan, s'.chan) && Served(s.cvChan, s'.cvChan)
  {
    hide Served, LocksAgree, RefusedMeansHeld, NoLostWakeup;
    Unserved(s.chan);
    Unserved(s.cvChan);
    if CallSignal(s, s', u) {
      Took(s.cvChan, if s.cvChan == [] then 0 else 1);
    } else if CallBroadcast(s, s', u) {
      Took(s.cvChan, |s.cvChan|);
    } else if Ready(s, u) && s' == After(s, u) {
      if s.pc[u].Switching? {
        Joined(s.chan, u);
      } else if s.pc[u].CvSwitching? {
        Joined(s.cvChan, u);
      } else if s.pc[u].Freed? && s.chan != [] {
        Took(s.chan, 1);
      }
    }
  }

  /** The lock's channel and the condition variable's, through a run. */
  function Channels(trace: seq<State>): seq<seq<Tid>> {
    seq(|trace|, k requires 0 <= k < |trace| => trace[k].chan)
  }

  function CvChannels(trace: seq<State>): seq<seq<Tid>> {
    seq(|trace|, k requires 0 <= k < |trace| => trace[k].cvChan)
  }

  lemma Histories(trace: seq<State>)
    requires Run(trace)
    ensures History(Channels(trace)) && History(CvChannels(trace))
  {
    hide LocksAgree, RefusedMeansHeld, NoLostWakeup, Init, Served, Distinct, Step, InHand, InHands;
    forall k | 0 <= k < |trace|
      ensures Distinct(trace[k].chan) && Distinct(trace[k].cvChan)
    {
      InvAt(trace, k);
    }
    forall k | 0 <= k < |trace| - 1
      ensures Served(trace[k].chan, trace[k + 1].chan) && Served(trace[k].cvChan, trace[k + 1].cvChan)
    {
      InvAt(trace, k);
      assert Next(trace[k], trace[k + 1]);
      var u :| Step(trace[k], trace[k + 1], u);
      StepServes(trace[k], trace[k + 1], u);
    }
  }

  /** Threads that sleep on the lock are woken in the order in which they went to sleep: as long as one
      sleeps, nobody who was behind it or comes later is taken from the channel before it. */
  lemma LockFirstCome(trace: seq<State>, i: nat, j: nat, t: Tid, u: Tid)
    requires Run(trace) && i <= j < |trace| && t != u
    requires forall k :: i <= k <= j ==> t in trace[k].chan
    requires u !in trace[i].chan || Before(trace[i].chan, t, u)
    ensures u in trace[i].chan ==> u in trace[j].chan
    ensures u !in trace[j].chan || Before(trace[j].chan, t, u)
  {
    hide Run, History, Before;
    Histories(trace);
    NotOvertaken(Channels(trace), i, j, t, u);
  }

  /** So are those that wait on the condition variable. */
  lemma WaitFirstCome(trace: seq<State>, i: nat, j: nat, t: Tid, u: Tid)
    requires Run(trace) && i <= j < |trace| && t != u
    requires forall k :: i <= k <= j ==> t in trace[k].cvChan
    requires u !in trace[i].cvChan || Before(trace[i].cvChan, t, u)
    ensures u in trace[i].cvChan ==> u in trace[j].cvChan
    ensures u !in trace[j].cvChan || Before(trace[j].cvChan, t, u)
  {
    hide Run, History, Before;
    Histories(trace);
    NotOvertaken(CvChannels(trace), i, j, t, u);
  }
}
