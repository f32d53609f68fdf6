/** Semaphores (thread/synch.c:48-93) over wait channels (thread/thread.c:381-386, 648-713).

    The protocol is a state machine. One step of a thread is one spinlock operation together
    with what the thread does up to its next spinlock operation; steps of different threads
    interleave in any order. */
module Semaphore {
  import opened Lib

  type Tid = nat

  /** Where a thread stands. The comments say which spinlocks it holds there. */
  datatype Pc =
    | Idle
    | PStart                        // in P, about to take the semaphore's lock
    | PEmpty                        // semaphore lock: the count was 0
    | PHandover                     // both locks
    | PSwitch                       // channel lock: about to go onto the channel
    | Asleep                        // on the channel
    | Handed                         // taken off the channel, in the waker's hands
    | Woken                         // runnable again, about to take the semaphore's lock
    | PTaken                        // semaphore lock: has decremented the count
    | VStart                        // in V, about to take the semaphore's lock
    | VRaised                       // semaphore lock: has incremented the count
    | VPopped(target: Option<Tid>)  // both locks: has taken a sleeper, if there was one
    | VWaking(target: Option<Tid>)  // semaphore lock
    | VDone                         // semaphore lock

  datatype State = State(
    count: nat,
    lock: Option<Tid>,
    chanLock: Option<Tid>,
    chan: seq<Tid>,
    pc: map<Tid, Pc>,
    initial: nat,
    returnedPs: nat,
    returnedVs: nat)

  // ---------------------------------------------------------------- the steps

  ghost predicate At(s: State, t: Tid, pc: Pc) {
    t in s.pc && s.pc[t] == pc
  }

  function Go(s: State, t: Tid, pc: Pc): State {
    s.(pc := s.pc[t := pc])
  }

  /** A thread calls P or V. */
  ghost predicate Call(s: State, s': State, t: Tid) {
    At(s, t, Idle) && (s' == Go(s, t, PStart) || s' == Go(s, t, VStart))
  }

  /** P has the semaphore's lock and tests the count, the first time or after a sleep. */
  ghost function TestCount(s: State, t: Tid): State {
    if s.count == 0 then Go(s, t, PEmpty).(lock := Some(t))
    else Go(s, t, PTaken).(lock := Some(t), count := s.count - 1)
  }

  /** wchan_wakeone has the channel's lock and takes the first sleeper off the channel. */
  ghost function TakeSleeper(s: State, t: Tid): State {
    if s.chan == [] then Go(s, t, VPopped(None)).(chanLock := Some(t))
    else Go(Go(s, s.chan[0], Handed), t, VPopped(Some(s.chan[0]))).(chanLock := Some(t), chan := s.chan[1..])
  }

  /** Whether a thread inside P or V can take its next step: spinlocks make it wait. */
  ghost predicate Ready(s: State, t: Tid) {
    && t in s.pc
    && match s.pc[t]
       case PStart | Woken | VStart => s.lock.None?
       case PEmpty | VRaised => s.chanLock.None?
       case Idle | Asleep | Handed => false
       case _ => true
  }

  /** The state after that step. Going to sleep, thread_switch puts the thread on the channel and
      then releases the channel's lock. */
  ghost function After(s: State, t: Tid): State
    requires Ready(s, t)
  {
    match s.pc[t]
    case PStart | Woken => TestCount(s, t)
    case PEmpty => Go(s, t, PHandover).(chanLock := Some(t))
    case PHandover => Go(s, t, PSwitch).(lock := None)
    case PSwitch => Go(s, t, Asleep).(chan := s.chan + [t], chanLock := None)
    case PTaken => Go(s, t, Idle).(lock := None, returnedPs := s.returnedPs + 1)
    case VStart => Go(s, t, VRaised).(lock := Some(t), count := s.count + 1)
    case VRaised => TakeSleeper(s, t)
    case VPopped(target) => Go(s, t, VWaking(target)).(chanLock := None)
    case VWaking(target) => Go(if target.Some? then Go(s, target.value, Woken) else s, t, VDone)
    case VDone => Go(s, t, Idle).(lock := None, returnedVs := s.returnedVs + 1)
  }

  ghost predicate Step(s: State, s': State, t: Tid) {
    Call(s, s', t) || (Ready(s, t) && s' == After(s, t))
  }

  ghost predicate Init(s: State) {
    && s.lock.None? && s.chanLock.None? && s.chan == [] && s.count == s.initial
    && s.returnedPs == 0 && s.returnedVs == 0
    && forall t :: t in s.pc ==> s.pc[t] == Idle
  }

  // ---------------------------------------------------------------- what every step keeps

  predicate HoldsLock(pc: Pc) {
    pc.PEmpty? || pc.PHandover? || pc.PTaken? || pc.VRaised? || pc.VPopped? || pc.VWaking? || pc.VDone?
  }

  predicate HoldsChannel(pc: Pc) {
    pc.PHandover? || pc.PSwitch? || pc.VPopped?
  }

  function Target(pc: Pc): Option<Tid> {
    match pc
    case VPopped(target) => target
    case VWaking(target) => target
    case _ => None
  }

  /** The thread that the holder of the semaphore's lock has taken off the channel. */
  ghost function InHand(s: State): Option<Tid> {
    if s.lock.Some? && s.lock.value in s.pc then Target(s.pc[s.lock.value]) else None
  }

  /** Each spinlock is held by the one thread whose place in the code says so. */
  ghost predicate LocksAgree(s: State) {
    && (forall t :: t in s.pc ==> (HoldsLock(s.pc[t]) <==> s.lock == Some(t)))
    && (forall t :: t in s.pc ==> (HoldsChannel(s.pc[t]) <==> s.chanLock == Some(t)))
    && (s.lock.Some? ==> s.lock.value in s.pc) && (s.chanLock.Some? ==> s.chanLock.value in s.pc)
  }

  /** The channel holds the sleepers, each once, and a thread taken off it is in the hands of the V that
      holds the semaphore's lock. */
  ghost predicate ChannelAgrees(s: State) {
    && (forall t :: t in s.pc ==> (s.pc[t].Asleep? <==> t in s.chan))
    && (forall t :: t in s.chan ==> t in s.pc)
    && (forall i, j :: 0 <= i < j < |s.chan| ==> s.chan[i] != s.chan[j])
    && (forall t :: t in s.pc ==> (s.pc[t].Handed? <==> InHand(s) == Some(t)))
    && (InHand(s).Some? ==> InHand(s).value in s.pc)
  }

  /** Threads that have been woken and have not tested the count again. */
  ghost function Rechecking(pc: map<Tid, Pc>): set<Tid> {
    set t | t in pc && (pc[t].Handed? || pc[t].Woken?)
  }

  /** Threads in V between the increment and waking one. */
  ghost function Raising(pc: map<Tid, Pc>): set<Tid> {
    set t | t in pc && pc[t].VRaised?
  }

  ghost function HavingTaken(pc: map<Tid, Pc>): set<Tid> {
    set t | t in pc && pc[t].PTaken?
  }

  ghost function HavingRaised(pc: map<Tid, Pc>): set<Tid> {
    set t | t in pc && HasRaised(pc[t])
  }

  /** Someone sleeps, or has let go of the semaphore's lock in order to. */
  ghost predicate SomeoneWaits(s: State) {
    s.chan != [] || (s.chanLock.Some? && At(s, s.chanLock.value, PSwitch))
  }

  /** No wakeup is lost: while someone waits, every unit of the count has a woken thread, or a
      V that is about to wake one, on its way to it. */
  ghost predicate NoLostWakeup(s: State) {
    SomeoneWaits(s) ==> |Rechecking(s.pc)| + |Raising(s.pc)| >= s.count
  }

  /** Every unit is accounted for, including those of Ps and Vs that have not returned. */
  ghost predicate Conserved(s: State) {
    s.initial + s.returnedVs + |HavingRaised(s.pc)| == s.count + s.returnedPs + |HavingTaken(s.pc)|
  }

  ghost predicate Structured(s: State) {
    && LocksAgree(s) && ChannelAgrees(s)
    && (forall t :: t in s.pc && (s.pc[t].PEmpty? || s.pc[t].PHandover?) ==> s.count == 0)
  }

  ghost predicate Inv(s: State) {
    Structured(s) && NoLostWakeup(s) && Conserved(s)
  }

  function One(b: bool): nat {
    if b then 1 else 0
  }

  predicate HasRaised(pc: Pc) {
    pc.VRaised? || pc.VPopped? || pc.VWaking? || pc.VDone?
  }

  lemma {:induction false} CountMoves<T>(before: set<T>, after: set<T>, t: T)
    requires before - {t} == after - {t}
    ensures |after| + One(t in before) == |before| + One(t in after)
  {
    if t in before {
      assert before == (before - {t}) + {t};
    }
    if t in after {
      assert after == (after - {t}) + {t};
    }
    assert t !in before ==> before == before - {t};
    assert t !in after ==> after == after - {t};
  }

  /** How the numbers of threads in each class change when one thread moves. */
  lemma Moved(pc: map<Tid, Pc>, t: Tid, to: Pc)
    requires t in pc
    ensures var pc', from := pc[t := to], pc[t];
            && |Rechecking(pc')| + One(from.Handed? || from.Woken?) == |Rechecking(pc)| + One(to.Handed? || to.Woken?)
            && |Raising(pc')| + One(from.VRaised?) == |Raising(pc)| + One(to.VRaised?)
            && |HavingTaken(pc')| + One(from.PTaken?) == |HavingTaken(pc)| + One(to.PTaken?)
            && |HavingRaised(pc')| + One(HasRaised(from)) == |HavingRaised(pc)| + One(HasRaised(to))
  {
    var pc' := pc[t := to];
    CountMoves(Rechecking(pc), Rechecking(pc'), t);
    CountMoves(Raising(pc), Raising(pc'), t);
    CountMoves(HavingTaken(pc), HavingTaken(pc'), t);
    CountMoves(HavingRaised(pc), HavingRaised(pc'), t);
  }

  lemma CallStructured(s: State, s': State, t: Tid)
    requires Structured(s) && Call(s, s', t)
    ensures Structured(s')
  {
  }

  lemma TestStructured(s: State, t: Tid)
    requires Structured(s) && Ready(s, t) && (At(s, t, PStart) || At(s, t, Woken))
    ensures Structured(After(s, t))
  {
  }

  lemma LockChannelStructured(s: State, t: Tid)
    requires Structured(s) && Ready(s, t) && At(s, t, PEmpty)
    ensures Structured(After(s, t))
  {
  }

  lemma ReleaseLockStructured(s: State, t: Tid)
    requires Structured(s) && Ready(s, t) && At(s, t, PHandover)
    ensures Structured(After(s, t))
  {
  }

  lemma GoToSleepStructured(s: State, t: Tid)
    requires Structured(s) && Ready(s, t) && At(s, t, PSwitch)
    ensures Structured(After(s, t))
  {
  }

  lemma ReturnPStructured(s: State, t: Tid)
    requires Structured(s) && Ready(s, t) && At(s, t, PTaken)
    ensures Structured(After(s, t))
  {
  }

  lemma RaiseStructured(s: State, t: Tid)
    requires Structured(s) && Ready(s, t) && At(s, t, VStart)
    ensures Structured(After(s, t))
  {
  }

  lemma PopStructured(s: State, t: Tid)
    requires Structured(s) && Ready(s, t) && At(s, t, VRaised)
    ensures Structured(After(s, t))
  {
  }

  lemma UnlockChannelStructured(s: State, t: Tid)
    requires Structured(s) && Ready(s, t) && s.pc[t].VPopped?
    ensures Structured(After(s, t))
  {
  }

  lemma MakeRunnableStructured(s: State, t: Tid)
    requires Structured(s) && Ready(s, t) && s.pc[t].VWaking?
    ensures Structured(After(s, t))
  {
  }

  lemma ReturnVStructured(s: State, t: Tid)
    requires Structured(s) && Ready(s, t) && At(s, t, VDone)
    ensures Structured(After(s, t))
  {
  }

  lemma CallCounts(s: State, s': State, t: Tid)
    requires Inv(s) && Call(s, s', t)
    ensures NoLostWakeup(s') && Conserved(s')
  {
    hide Rechecking, Raising, HavingTaken, HavingRaised;
    Moved(s.pc, t, s'.pc[t]);
  }

  /** Steps that move one thread. */
  lemma AloneCounts(s: State, t: Tid)
    requires Inv(s) && Ready(s, t) && !s.pc[t].VRaised? && !s.pc[t].VWaking?
    ensures NoLostWakeup(After(s, t)) && Conserved(After(s, t))
  {
    hide Rechecking, Raising, HavingTaken, HavingRaised;
    Moved(s.pc, t, After(s, t).pc[t]);
  }

  lemma PopCounts(s: State, t: Tid)
    requires Inv(s) && Ready(s, t) && s.pc[t].VRaised?
    ensures NoLostWakeup(After(s, t)) && Conserved(After(s, t))
  {
    hide Rechecking, Raising, HavingTaken, HavingRaised;
    if s.chan == [] {
      Moved(s.pc, t, VPopped(None));
    } else {
      var target := s.chan[0];
      assert target in s.chan;
      Moved(s.pc, target, Handed);
      Moved(s.pc[target := Handed], t, VPopped(Some(target)));
    }
  }

  lemma MakeRunnableCounts(s: State, t: Tid)
    requires Inv(s) && Ready(s, t) && s.pc[t].VWaking?
    ensures NoLostWakeup(After(s, t)) && Conserved(After(s, t))
  {
    hide Rechecking, Raising, HavingTaken, HavingRaised;
    if s.pc[t].target.None? {
      Moved(s.pc, t, VDone);
    } else {
      var target := s.pc[t].target.value;
      Moved(s.pc, target, Woken);
      Moved(s.pc[target := Woken], t, VDone);
    }
  }

  lemma StepKeeps(s: State, s': State, t: Tid)
    requires Inv(s) && Step(s, s', t)
    ensures Inv(s')
  {
    hide Structured, NoLostWakeup, Conserved, After;
    if Call(s, s', t) {
      CallStructured(s, s', t);
      CallCounts(s, s', t);
    } else {
      match s.pc[t] {
        case PStart | Woken => TestStructured(s, t); AloneCounts(s, t);
        case PEmpty => LockChannelStructured(s, t); AloneCounts(s, t);
        case PHandover => ReleaseLockStructured(s, t); AloneCounts(s, t);
        case PSwitch => GoToSleepStructured(s, t); AloneCounts(s, t);
        case PTaken => ReturnPStructured(s, t); AloneCounts(s, t);
        case VStart => RaiseStructured(s, t); AloneCounts(s, t);
        case VRaised => PopStructured(s, t); PopCounts(s, t);
        case VPopped(_) => UnlockChannelStructured(s, t); AloneCounts(s, t);
        case VWaking(_) => MakeRunnableStructured(s, t); MakeRunnableCounts(s, t);
        case VDone => ReturnVStructured(s, t); AloneCounts(s, t);
      }
    }
  }

  // ---------------------------------------------------------------- every run

  ghost predicate Next(s: State, s': State) {
    exists t :: Step(s, s', t)
  }

  /** A run: any interleaving of any number of threads, from a semaphore nobody has used. */
  ghost predicate Run(trace: seq<State>) {
    && trace != [] && Init(trace[0])
    && forall i :: 0 <= i < |trace| - 1 ==> Next(trace[i], trace[i + 1])
  }

  lemma {:induction false} RunKeeps(trace: seq<State>)
    requires Run(trace)
    ensures Inv(trace[|trace| - 1])
  {
    hide Inv, Step, Init;
    if |trace| == 1 {
      InitHolds(trace[0]);
    } else {
      var shorter := trace[..|trace| - 1];
      assert forall i :: 0 <= i < |shorter| ==> shorter[i] == trace[i];
      RunKeeps(shorter);
      var before := trace[|trace| - 2];
      assert Next(before, trace[|trace| - 2 + 1]);
      var t :| Step(before, trace[|trace| - 1], t);
      StepKeeps(before, trace[|trace| - 1], t);
    }
  }

  lemma InitHolds(s: State)
    requires Init(s)
    ensures Inv(s)
  {
    assert Rechecking(s.pc) == {} && Raising(s.pc) == {} && HavingTaken(s.pc) == {} && HavingRaised(s.pc) == {};
  }

  /** Nobody is in the middle of P or V, other than asleep. */
  ghost predicate Quiet(s: State) {
    forall t :: t in s.pc ==> s.pc[t].Idle? || s.pc[t].Asleep?
  }

  /** What the wakeup rule means when nothing is going on: a sleeper means the count is 0, and the
      count is what the completed Ps and Vs have made it. */
  lemma QuietRun(trace: seq<State>)
    requires Run(trace) && Quiet(trace[|trace| - 1])
    ensures var s := trace[|trace| - 1];
            && (s.chan != [] ==> s.count == 0)
            && s.initial + s.returnedVs == s.count + s.returnedPs
  {
    RunKeeps(trace);
    var s := trace[|trace| - 1];
    assert Rechecking(s.pc) == {} && Raising(s.pc) == {} && HavingTaken(s.pc) == {} && HavingRaised(s.pc) == {};
  }

  /** The two locks are always taken in the same order: as long as some thread is neither idle,
      asleep nor in another's hands, some such thread can take its next step. */
  lemma NotStuck(s: State, t: Tid)
    requires Inv(s) && t in s.pc && !s.pc[t].Idle? && !s.pc[t].Asleep? && !s.pc[t].Handed?
    ensures exists s', u :: Step(s, s', u) && !At(s, u, Idle)
  {
    var u := if s.chanLock.Some? then s.chanLock.value else if s.lock.Some? then s.lock.value else t;
    assert Ready(s, u) && Step(s, After(s, u), u);
  }
}
