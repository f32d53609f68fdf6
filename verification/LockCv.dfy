/** Sleep locks and condition variables (thread/synch.c:135-169, thread/synch.c:216-234).

    One lock and one condition variable used with it, as a state machine: a step is one
    spinlock operation together with what the thread does up to its next one. Both the lock
    and the condition variable have a wait channel with a spinlock of its own. */
module LockCv {
  import opened Lib

  type Tid = nat

  /** Where a thread stands. A thread that is leaving the lock in cv_wait also holds the
      spinlock of the condition variable's channel. */
  datatype Pc =
    | Out                                           // does not hold the lock
    | Entering(woken: bool)                         // about to take the lock's spinlock
    | Entered                                       // spinlock: has become the holder
    | Refused                                       // spinlock: the lock is held
    | Handover                                      // spinlock and channel
    | Switching                                     // channel: about to go onto it
    | Asleep                                        // on the lock's channel
    | Handed                                        // in the hands of the thread that wakes it
    | Inside                                        // holds the lock
    | Leaving(wait: bool)                           // holds the lock, about to take its spinlock
    | Freed(wait: bool)                             // spinlock: there is no holder any more
    | Popped(wait: bool, target: Option<Tid>)       // spinlock and channel
    | Waking(wait: bool, target: Option<Tid>)       // spinlock
    | Left(wait: bool)                              // spinlock
    | CvSwitching                                   // about to go onto the condition variable's channel
    | CvAsleep                                      // on that channel
    | CvHanded                                      // in the hands of a signalling thread
    | Signalling(targets: seq<Tid>)                 // holds the lock, and the channel's spinlock
    | Signalled(targets: seq<Tid>)                  // holds the lock

  datatype State = State(
    holder: Option<Tid>,
    lock: Option<Tid>,
    chanLock: Option<Tid>,
    chan: seq<Tid>,
    cvLock: Option<Tid>,
    cvChan: seq<Tid>,
    pc: map<Tid, Pc>)

  // ---------------------------------------------------------------- the steps

  ghost predicate At(s: State, t: Tid, pc: Pc) {
    t in s.pc && s.pc[t] == pc
  }

  function Go(s: State, t: Tid, pc: Pc): State {
    s.(pc := s.pc[t := pc])
  }

  /** The first n sleepers are taken off the condition variable's channel. */
  ghost function TakeWaiters(s: State, t: Tid, n: nat): State
    requires n <= |s.cvChan| && t in s.pc
  {
    var targets := s.cvChan[..n];
    s.(cvLock := Some(t), cvChan := s.cvChan[n..],
       pc := (map u | u in s.pc :: if u in targets then CvHanded else s.pc[u])[t := Signalling(targets)])
  }

  ghost predicate CallAcquire(s: State, s': State, t: Tid) {
    At(s, t, Out) && s' == Go(s, t, Entering(false))
  }

  ghost predicate CallRelease(s: State, s': State, t: Tid) {
    At(s, t, Inside) && s' == Go(s, t, Leaving(false))
  }

  /** cv_wait locks the condition variable's channel before anything else. */
  ghost predicate CallWait(s: State, s': State, t: Tid) {
    At(s, t, Inside) && s.cvLock.None? && s' == Go(s, t, Leaving(true)).(cvLock := Some(t))
  }

  ghost predicate CallSignal(s: State, s': State, t: Tid) {
    At(s, t, Inside) && s.cvLock.None? && s' == TakeWaiters(s, t, if s.cvChan == [] then 0 else 1)
  }

  ghost predicate CallBroadcast(s: State, s': State, t: Tid) {
    At(s, t, Inside) && s.cvLock.None? && s' == TakeWaiters(s, t, |s.cvChan|)
  }

  /** Whether a thread inside one of the operations can take its next step. */
  ghost predicate Ready(s: State, t: Tid) {
    && t in s.pc
    && match s.pc[t]
       case Entering(_) | Leaving(_) => s.lock.None?
       case Refused | Freed(_) => s.chanLock.None?
       case Out | Inside | Asleep | Handed | CvAsleep | CvHanded => false
       case _ => true
  }

  ghost function TestHolder(s: State, t: Tid): State {
    if s.holder.None? then Go(s, t, Entered).(lock := Some(t), holder := Some(t))
    else Go(s, t, Refused).(lock := Some(t))
  }

  ghost function TakeSleeper(s: State, t: Tid, wait: bool): State {
    if s.chan == [] then Go(s, t, Popped(wait, None)).(chanLock := Some(t))
    else Go(Go(s, s.chan[0], Handed), t, Popped(wait, Some(s.chan[0]))).(chanLock := Some(t), chan := s.chan[1..])
  }

  ghost function After(s: State, t: Tid): State
    requires Ready(s, t)
  {
    match s.pc[t]
    case Entering(_) => TestHolder(s, t)
    case Entered => Go(s, t, Inside).(lock := None)
    case Refused => Go(s, t, Handover).(chanLock := Some(t))
    case Handover => Go(s, t, Switching).(lock := None)
    case Switching => Go(s, t, Asleep).(chan := s.chan + [t], chanLock := None)
    case Leaving(wait) => Go(s, t, Freed(wait)).(lock := Some(t), holder := None)
    case Freed(wait) => TakeSleeper(s, t, wait)
    case Popped(wait, target) => Go(s, t, Waking(wait, target)).(chanLock := None)
    case Waking(wait, target) => Go(if target.Some? then Go(s, target.value, Entering(true)) else s, t, Left(wait))
    case Left(wait) => Go(s, t, if wait then CvSwitching else Out).(lock := None)
    case CvSwitching => Go(s, t, CvAsleep).(cvChan := s.cvChan + [t], cvLock := None)
    case Signalling(targets) => Go(s, t, Signalled(targets)).(cvLock := None)
    case Signalled(targets) =>
      if targets == [] then Go(s, t, Inside) else Go(Go(s, targets[0], Entering(false)), t, Signalled(targets[1..]))
  }

  ghost predicate Step(s: State, s': State, t: Tid) {
    || CallAcquire(s, s', t) || CallRelease(s, s', t) || CallWait(s, s', t) || CallSignal(s, s', t) || CallBroadcast(s, s', t)
    || (Ready(s, t) && s' == After(s, t))
  }

  ghost predicate Init(s: State) {
    && s.holder.None? && s.lock.None? && s.chanLock.None? && s.cvLock.None? && s.chan == [] && s.cvChan == []
    && forall t :: t in s.pc ==> s.pc[t] == Out
  }

  // ---------------------------------------------------------------- what every step keeps

  predicate HasLock(pc: Pc) {
    pc.Entered? || pc.Refused? || pc.Handover? || pc.Freed? || pc.Popped? || pc.Waking? || pc.Left?
  }

  predicate HasChannel(pc: Pc) {
    pc.Handover? || pc.Switching? || pc.Popped?
  }

  predicate HasCvChannel(pc: Pc) {
    match pc
    case Leaving(wait) => wait
    case Freed(wait) => wait
    case Popped(wait, _) => wait
    case Waking(wait, _) => wait
    case Left(wait) => wait
    case CvSwitching => true
    case Signalling(_) => true
    case _ => false
  }

  /** Between lock_acquire and lock_release. */
  predicate Owns(pc: Pc) {
    pc.Entered? || pc.Inside? || pc.Leaving? || pc.Signalling? || pc.Signalled?
  }

  ghost predicate LocksAgree(s: State) {
    && (forall t :: t in s.pc ==> (HasLock(s.pc[t]) <==> s.lock == Some(t)))
    && (forall t :: t in s.pc ==> (HasChannel(s.pc[t]) <==> s.chanLock == Some(t)))
    && (forall t :: t in s.pc ==> (HasCvChannel(s.pc[t]) <==> s.cvLock == Some(t)))
    && (forall t :: t in s.pc ==> (Owns(s.pc[t]) <==> s.holder == Some(t)))
    && (s.lock.Some? ==> s.lock.value in s.pc) && (s.chanLock.Some? ==> s.chanLock.value in s.pc)
    && (s.cvLock.Some? ==> s.cvLock.value in s.pc) && (s.holder.Some? ==> s.holder.value in s.pc)
  }

  /** The thread that the holder of the spinlock has taken off the lock's channel. */
  ghost function InHand(s: State): Option<Tid> {
    if s.lock.Some? && s.lock.value in s.pc then
      match s.pc[s.lock.value]
      case Popped(_, target) => target
      case Waking(_, target) => target
      case _ => None
    else None
  }

  /** The threads that the holder of the lock has taken off the condition variable's channel. */
  ghost function InHands(s: State): seq<Tid> {
    if s.holder.Some? && s.holder.value in s.pc then
      match s.pc[s.holder.value]
      case Signalling(targets) => targets
      case Signalled(targets) => targets
      case _ => []
    else []
  }

  ghost predicate ChannelAgrees(s: State) {
    && (forall t :: t in s.pc ==> (s.pc[t].Asleep? <==> t in s.chan))
    && (forall t :: t in s.chan ==> t in s.pc) && Distinct(s.chan)
    && (forall t :: t in s.pc ==> (s.pc[t].Handed? <==> InHand(s) == Some(t)))
    && (InHand(s).Some? ==> InHand(s).value in s.pc)
  }

  ghost predicate CvChannelAgrees(s: State) {
    && (forall t :: t in s.pc ==> (s.pc[t].CvAsleep? <==> t in s.cvChan))
    && (forall t :: t in s.cvChan ==> t in s.pc) && Distinct(s.cvChan)
    && (forall t :: t in s.pc ==> (s.pc[t].CvHanded? <==> t in InHands(s)))
    && (forall t :: t in InHands(s) ==> t in s.pc) && Distinct(InHands(s))
  }

  /** Someone sleeps on the lock, or has let go of the spinlock in order to. */
  ghost predicate SomeoneWaits(s: State) {
    s.chan != [] || (s.chanLock.Some? && At(s, s.chanLock.value, Switching))
  }

  /** Someone will look at the lock again: a thread woken for it, or a thread that has freed it
      and is about to wake one. */
  ghost predicate SomeoneComes(s: State) {
    || (exists t :: t in s.pc && (s.pc[t].Handed? || s.pc[t] == Entering(true)))
    || (s.lock.Some? && s.lock.value in s.pc && s.pc[s.lock.value].Freed?)
  }

  /** A free lock with sleepers always has someone on the way to it. */
  ghost predicate NoLostWakeup(s: State) {
    s.holder.None? && SomeoneWaits(s) ==> SomeoneComes(s)
  }

  /** Nobody goes to sleep on a lock that is free. */
  ghost predicate RefusedMeansHeld(s: State) {
    s.lock.Some? && s.lock.value in s.pc && (s.pc[s.lock.value].Refused? || s.pc[s.lock.value].Handover?) ==> s.holder.Some?
  }

  ghost predicate Inv(s: State) {
    LocksAgree(s) && ChannelAgrees(s) && CvChannelAgrees(s) && RefusedMeansHeld(s) && NoLostWakeup(s)
  }

  // ---------------------------------------------------------------- moving one thread

  /** A lock that changes hands as one thread moves: taken only when free, given up only by its holder. */
  predicate Passes(had: bool, has: bool, l: Option<Tid>, l': Option<Tid>, t: Tid) {
    l' == (if has then Some(t) else if had then None else l) && (has && !had ==> l.None?)
  }

  lemma MoveLocks(s: State, s': State, t: Tid, to: Pc)
    requires LocksAgree(s) && t in s.pc && s'.pc == s.pc[t := to]
    requires Passes(HasLock(s.pc[t]), HasLock(to), s.lock, s'.lock, t)
    requires Passes(HasChannel(s.pc[t]), HasChannel(to), s.chanLock, s'.chanLock, t)
    requires Passes(HasCvChannel(s.pc[t]), HasCvChannel(to), s.cvLock, s'.cvLock, t)
    requires Passes(Owns(s.pc[t]), Owns(to), s.holder, s'.holder, t)
    ensures LocksAgree(s')
  {
    hide HasLock, HasChannel, HasCvChannel, Owns;
  }

  /** A move that has nothing to do with the lock's channel. */
  lemma MoveAside(s: State, s': State, t: Tid, to: Pc)
    requires ChannelAgrees(s) && t in s.pc && s'.pc == s.pc[t := to] && s'.chan == s.chan
    requires !s.pc[t].Asleep? && !to.Asleep? && !s.pc[t].Handed? && !to.Handed?
    requires InHand(s') == InHand(s)
    ensures ChannelAgrees(s')
  {
    hide InHand;
  }

  /** A move that has nothing to do with the condition variable's channel. */
  lemma MoveCvAside(s: State, s': State, t: Tid, to: Pc)
    requires CvChannelAgrees(s) && t in s.pc && s'.pc == s.pc[t := to] && s'.cvChan == s.cvChan
    requires !s.pc[t].CvAsleep? && !to.CvAsleep? && !s.pc[t].CvHanded? && !to.CvHanded?
    requires InHands(s') == InHands(s)
    ensures CvChannelAgrees(s')
  {
    hide InHands;
  }

  lemma FirstSleeper(s: State)
    requires ChannelAgrees(s)
    ensures s.chan != [] ==> s.chan[0] in s.pc && s.pc[s.chan[0]].Asleep?
  {
    hide InHand;
  }

  lemma TargetIsHanded(s: State)
    requires ChannelAgrees(s)
    ensures InHand(s).Some? ==> InHand(s).value in s.pc && s.pc[InHand(s).value].Handed?
  {
    hide InHand;
  }

  lemma TargetsAreHanded(s: State)
    requires CvChannelAgrees(s)
    ensures InHands(s) != [] ==> InHands(s)[0] in s.pc && s.pc[InHands(s)[0]].CvHanded?
  {
    hide InHands;
  }

  // ---------------------------------------------------------------- the spinlocks and the lock

  /** A step that moves the thread alone: it wakes nobody. */
  ghost predicate Alone(s: State, t: Tid)
    requires Ready(s, t)
  {
    match s.pc[t]
    case Freed(_) => s.chan == []
    case Waking(_, target) => target.None?
    case Signalled(targets) => targets == []
    case _ => true
  }

  lemma AloneLocks(s: State, t: Tid)
    requires Inv(s) && Ready(s, t) && Alone(s, t)
    ensures LocksAgree(After(s, t))
  {
    hide LocksAgree, ChannelAgrees, CvChannelAgrees, NoLostWakeup, RefusedMeansHeld;
    HolderFacts(s, t);
    MoveLocks(s, After(s, t), t, After(s, t).pc[t]);
  }

  lemma FreedLocks(s: State, t: Tid)
    requires Inv(s) && Ready(s, t) && s.pc[t].Freed? && s.chan != []
    ensures LocksAgree(After(s, t))
  {
    hide LocksAgree, ChannelAgrees, CvChannelAgrees, NoLostWakeup, RefusedMeansHeld;
    HolderFacts(s, t);
    FirstSleeper(s);
    var u := Go(s, s.chan[0], Handed);
    MoveLocks(s, u, s.chan[0], Handed);
    MoveLocks(u, After(s, t), t, After(s, t).pc[t]);
  }

  lemma WakingLocks(s: State, t: Tid)
    requires Inv(s) && Ready(s, t) && s.pc[t].Waking? && s.pc[t].target.Some?
    ensures LocksAgree(After(s, t))
  {
    hide LocksAgree, ChannelAgrees, CvChannelAgrees, NoLostWakeup, RefusedMeansHeld;
    HolderFacts(s, t);
    TargetIsHanded(s);
    var target := s.pc[t].target.value;
    var u := Go(s, target, Entering(true));
    MoveLocks(s, u, target, Entering(true));
    MoveLocks(u, After(s, t), t, After(s, t).pc[t]);
  }

  lemma SignalledLocks(s: State, t: Tid)
    requires Inv(s) && Ready(s, t) && s.pc[t].Signalled? && s.pc[t].targets != []
    ensures LocksAgree(After(s, t))
  {
    hide LocksAgree, ChannelAgrees, CvChannelAgrees, NoLostWakeup, RefusedMeansHeld;
    HolderFacts(s, t);
    TargetsAreHanded(s);
    var target := s.pc[t].targets[0];
    var u := Go(s, target, Entering(false));
    MoveLocks(s, u, target, Entering(false));
    MoveLocks(u, After(s, t), t, After(s, t).pc[t]);
  }

  /** What LocksAgree says about one thread. */
  lemma HolderFacts(s: State, t: Tid)
    requires LocksAgree(s) && t in s.pc
    ensures HasLock(s.pc[t]) <==> s.lock == Some(t)
    ensures HasChannel(s.pc[t]) <==> s.chanLock == Some(t)
    ensures HasCvChannel(s.pc[t]) <==> s.cvLock == Some(t)
    ensures Owns(s.pc[t]) <==> s.holder == Some(t)
  {
  }

  /** A call that moves one thread. */
  ghost predicate OwnCall(s: State, s': State, t: Tid) {
    CallAcquire(s, s', t) || CallRelease(s, s', t) || CallWait(s, s', t)
  }

  lemma CallLocks(s: State, s': State, t: Tid)
    requires Inv(s) && OwnCall(s, s', t)
    ensures LocksAgree(s')
  {
    hide LocksAgree, ChannelAgrees, CvChannelAgrees, NoLostWakeup, RefusedMeansHeld;
    HolderFacts(s, t);
    MoveLocks(s, s', t, s'.pc[t]);
  }

  /** Threads on the condition variable's channel hold nothing. */
  lemma TakeLocks(s: State, t: Tid, n: nat)
    requires Inv(s) && At(s, t, Inside) && s.cvLock.None? && n <= |s.cvChan|
    ensures LocksAgree(TakeWaiters(s, t, n))
  {
    hide ChannelAgrees, NoLostWakeup, RefusedMeansHeld, HasLock, HasChannel, HasCvChannel, Owns, InHands;
    var s' := TakeWaiters(s, t, n);
    assert forall u :: u in s.cvChan[..n] ==> u in s.cvChan;
    forall u | u in s.pc && u != t
      ensures HasLock(s'.pc[u]) == HasLock(s.pc[u]) && HasChannel(s'.pc[u]) == HasChannel(s.pc[u])
      ensures HasCvChannel(s'.pc[u]) == HasCvChannel(s.pc[u]) && Owns(s'.pc[u]) == Owns(s.pc[u])
    {
      if u in s.cvChan[..n] {
        CvSleepersHoldNothing();
      }
    }
    SignallersHold(s.cvChan[..n]);
  }

  lemma CvSleepersHoldNothing()
    ensures !HasLock(CvAsleep) && !HasChannel(CvAsleep) && !HasCvChannel(CvAsleep) && !Owns(CvAsleep)
    ensures !HasLock(CvHanded) && !HasChannel(CvHanded) && !HasCvChannel(CvHanded) && !Owns(CvHanded)
  {
  }

  lemma SignallersHold(targets: seq<Tid>)
    ensures HasLock(Inside) == HasLock(Signalling(targets)) && HasChannel(Inside) == HasChannel(Signalling(targets))
    ensures !HasCvChannel(Inside) && HasCvChannel(Signalling(targets)) && Owns(Inside) && Owns(Signalling(targets))
  {
  }

  // ---------------------------------------------------------------- the lock's channel

  lemma AloneChannel(s: State, t: Tid)
    requires Inv(s) && Ready(s, t) && Alone(s, t) && !s.pc[t].Switching?
    ensures ChannelAgrees(After(s, t))
  {
    hide LocksAgree, ChannelAgrees, CvChannelAgrees, NoLostWakeup, RefusedMeansHeld;
    HolderFacts(s, t);
    MoveAside(s, After(s, t), t, After(s, t).pc[t]);
  }

  lemma SwitchingChannel(s: State, t: Tid)
    requires Inv(s) && Ready(s, t) && s.pc[t].Switching?
    ensures ChannelAgrees(After(s, t))
  {
    hide CvChannelAgrees, NoLostWakeup, RefusedMeansHeld;
    assert InHand(After(s, t)) == InHand(s);
  }

  lemma FreedChannel(s: State, t: Tid)
    requires Inv(s) && Ready(s, t) && s.pc[t].Freed? && s.chan != []
    ensures ChannelAgrees(After(s, t))
  {
    hide LocksAgree, CvChannelAgrees, NoLostWakeup, RefusedMeansHeld, InHand;
    HolderFacts(s, t);
    var s' := After(s, t);
    assert InHand(s) == None && InHand(s') == Some(s.chan[0]) by {
      InHandOf(s, t);
      InHandOf(s', t);
    }
    assert s.chan[0] in s.chan && s.chan == [s.chan[0]] + s'.chan;
  }

  lemma InHandOf(s: State, t: Tid)
    requires t in s.pc && s.lock == Some(t)
    ensures InHand(s) == match s.pc[t]
                         case Popped(_, target) => target
                         case Waking(_, target) => target
                         case _ => None
  {
  }

  lemma WakingChannel(s: State, t: Tid)
    requires Inv(s) && Ready(s, t) && s.pc[t].Waking? && s.pc[t].target.Some?
    ensures ChannelAgrees(After(s, t))
  {
    hide LocksAgree, CvChannelAgrees, NoLostWakeup, RefusedMeansHeld, InHand;
    HolderFacts(s, t);
    InHandOf(s, t);
    InHandOf(After(s, t), t);
  }

  lemma SignalledChannel(s: State, t: Tid)
    requires Inv(s) && Ready(s, t) && s.pc[t].Signalled? && s.pc[t].targets != []
    ensures ChannelAgrees(After(s, t))
  {
    hide LocksAgree, ChannelAgrees, CvChannelAgrees, NoLostWakeup, RefusedMeansHeld;
    HolderFacts(s, t);
    TargetsAreHanded(s);
    var target := s.pc[t].targets[0];
    HolderFacts(s, target);
    var u := Go(s, target, Entering(false));
    MoveAside(s, u, target, Entering(false));
    MoveAside(u, After(s, t), t, After(s, t).pc[t]);
  }

  lemma CallChannel(s: State, s': State, t: Tid)
    requires Inv(s) && OwnCall(s, s', t)
    ensures ChannelAgrees(s')
  {
    hide LocksAgree, ChannelAgrees, CvChannelAgrees, NoLostWakeup, RefusedMeansHeld;
    HolderFacts(s, t);
    MoveAside(s, s', t, s'.pc[t]);
  }

  lemma TakeChannel(s: State, t: Tid, n: nat)
    requires Inv(s) && At(s, t, Inside) && s.cvLock.None? && n <= |s.cvChan|
    ensures ChannelAgrees(TakeWaiters(s, t, n))
  {
    hide InHands;
    HolderFacts(s, t);
    assert forall u :: u in s.cvChan[..n] ==> u in s.cvChan;
  }

  // ---------------------------------------------------------------- the condition variable's channel

  lemma AloneCv(s: State, t: Tid)
    requires Inv(s) && Ready(s, t) && Alone(s, t) && !s.pc[t].CvSwitching?
    ensures CvChannelAgrees(After(s, t))
  {
    hide LocksAgree, ChannelAgrees, CvChannelAgrees, NoLostWakeup, RefusedMeansHeld;
    HolderFacts(s, t);
    MoveCvAside(s, After(s, t), t, After(s, t).pc[t]);
  }

  lemma CvSwitchingCv(s: State, t: Tid)
    requires Inv(s) && Ready(s, t) && s.pc[t].CvSwitching?
    ensures CvChannelAgrees(After(s, t))
  {
    hide ChannelAgrees, NoLostWakeup, RefusedMeansHeld;
    HolderFacts(s, t);
    assert InHands(After(s, t)) == InHands(s);
  }

  lemma FreedCv(s: State, t: Tid)
    requires Inv(s) && Ready(s, t) && s.pc[t].Freed? && s.chan != []
    ensures CvChannelAgrees(After(s, t))
  {
    hide LocksAgree, ChannelAgrees, CvChannelAgrees, NoLostWakeup, RefusedMeansHeld;
    HolderFacts(s, t);
    FirstSleeper(s);
    HolderFacts(s, s.chan[0]);
    var u := Go(s, s.chan[0], Handed);
    MoveCvAside(s, u, s.chan[0], Handed);
    MoveCvAside(u, After(s, t), t, After(s, t).pc[t]);
  }

  lemma WakingCv(s: State, t: Tid)
    requires Inv(s) && Ready(s, t) && s.pc[t].Waking? && s.pc[t].target.Some?
    ensures CvChannelAgrees(After(s, t))
  {
    hide LocksAgree, ChannelAgrees, CvChannelAgrees, NoLostWakeup, RefusedMeansHeld;
    HolderFacts(s, t);
    TargetIsHanded(s);
    var target := s.pc[t].target.value;
    HolderFacts(s, target);
    var u := Go(s, target, Entering(true));
    MoveCvAside(s, u, target, Entering(true));
    MoveCvAside(u, After(s, t), t, After(s, t).pc[t]);
  }

  lemma InHandsOf(s: State, t: Tid)
    requires t in s.pc && s.holder == Some(t)
    ensures InHands(s) == match s.pc[t]
                          case Signalling(targets) => targets
                          case Signalled(targets) => targets
                          case _ => []
  {
  }

  lemma SignalledCv(s: State, t: Tid)
    requires Inv(s) && Ready(s, t) && s.pc[t].Signalled? && s.pc[t].targets != []
    ensures CvChannelAgrees(After(s, t))
  {
    hide LocksAgree, ChannelAgrees, NoLostWakeup, RefusedMeansHeld, InHands;
    HolderFacts(s, t);
    TargetsAreHanded(s);
    InHandsOf(s, t);
    InHandsOf(After(s, t), t);
    var targets := s.pc[t].targets;
    assert targets == [targets[0]] + targets[1..];
  }

  lemma CallCv(s: State, s': State, t: Tid)
    requires Inv(s) && OwnCall(s, s', t)
    ensures CvChannelAgrees(s')
  {
    hide LocksAgree, ChannelAgrees, CvChannelAgrees, NoLostWakeup, RefusedMeansHeld;
    HolderFacts(s, t);
    MoveCvAside(s, s', t, s'.pc[t]);
  }

  lemma TakeCv(s: State, t: Tid, n: nat)
    requires Inv(s) && At(s, t, Inside) && s.cvLock.None? && n <= |s.cvChan|
    ensures CvChannelAgrees(TakeWaiters(s, t, n))
  {
    hide LocksAgree, ChannelAgrees, NoLostWakeup, RefusedMeansHeld, InHands, Distinct;
    HolderFacts(s, t);
    var s' := TakeWaiters(s, t, n);
    InHandsOf(s, t);
    InHandsOf(s', t);
    Parted(s.cvChan, n);
  }

  lemma Parted(q: seq<Tid>, n: nat)
    requires Distinct(q) && n <= |q|
    ensures Distinct(q[..n]) && Distinct(q[n..])
    ensures forall t :: t in q <==> t in q[..n] || t in q[n..]
    ensures forall t :: t in q[..n] ==> t !in q[n..]
  {
    assert q == q[..n] + q[n..];
  }

  // ---------------------------------------------------------------- wakeups

  lemma AloneWakeup(s: State, t: Tid)
    requires Inv(s) && Ready(s, t) && Alone(s, t)
    ensures RefusedMeansHeld(After(s, t)) && NoLostWakeup(After(s, t))
  {
    hide LocksAgree, ChannelAgrees, CvChannelAgrees, InHand, InHands;
    HolderFacts(s, t);
    if s.lock.Some? && s.lock.value in s.pc { HolderFacts(s, s.lock.value); }
    if s.chanLock.Some? && s.chanLock.value in s.pc { HolderFacts(s, s.chanLock.value); }
    var s' := After(s, t);
    if u :| u in s.pc && u != t && (s.pc[u].Handed? || s.pc[u] == Entering(true)) {
      assert s'.pc[u] == s.pc[u];
    }
  }

  lemma PairWakeup(s: State, t: Tid)
    requires Inv(s) && Ready(s, t) && !Alone(s, t)
    ensures RefusedMeansHeld(After(s, t)) && NoLostWakeup(After(s, t))
  {
    hide LocksAgree, ChannelAgrees, CvChannelAgrees;
    HolderFacts(s, t);
    FirstSleeper(s);
    TargetIsHanded(s);
    TargetsAreHanded(s);
    if s.lock.Some? && s.lock.value in s.pc { HolderFacts(s, s.lock.value); }
    if s.chanLock.Some? && s.chanLock.value in s.pc { HolderFacts(s, s.chanLock.value); }
    var s' := After(s, t);
    match s.pc[t] {
      case Freed(_) => assert s'.pc[s.chan[0]].Handed?;
      case Waking(_, target) => assert s'.pc[target.value] == Entering(true);
      case Signalled(_) => assert s.holder.Some?;
    }
  }

  lemma CallWakeup(s: State, s': State, t: Tid)
    requires Inv(s) && OwnCall(s, s', t)
    ensures RefusedMeansHeld(s') && NoLostWakeup(s')
  {
    hide LocksAgree, ChannelAgrees, CvChannelAgrees, InHand, InHands;
    HolderFacts(s, t);
    if u :| u in s.pc && u != t && (s.pc[u].Handed? || s.pc[u] == Entering(true)) {
      assert s'.pc[u] == s.pc[u];
    }
  }

  lemma TakeWakeup(s: State, t: Tid, n: nat)
    requires Inv(s) && At(s, t, Inside) && s.cvLock.None? && n <= |s.cvChan|
    ensures RefusedMeansHeld(TakeWaiters(s, t, n)) && NoLostWakeup(TakeWaiters(s, t, n))
  {
    hide LocksAgree, ChannelAgrees, CvChannelAgrees, InHand, InHands;
    HolderFacts(s, t);
  }

  lemma StepKeeps(s: State, s': State, t: Tid)
    requires Inv(s) && Step(s, s', t)
    ensures Inv(s')
  {
    hide LocksAgree, ChannelAgrees, CvChannelAgrees, RefusedMeansHeld, NoLostWakeup, After, TakeWaiters, OwnCall;
    if CallSignal(s, s', t) {
      var n := if s.cvChan == [] then 0 else 1;
      TakeLocks(s, t, n); TakeChannel(s, t, n); TakeCv(s, t, n); TakeWakeup(s, t, n);
    } else if CallBroadcast(s, s', t) {
      var n := |s.cvChan|;
      TakeLocks(s, t, n); TakeChannel(s, t, n); TakeCv(s, t, n); TakeWakeup(s, t, n);
    } else if Ready(s, t) && s' == After(s, t) {
      ReadyKeeps(s, t);
    } else {
      CallKeeps(s, s', t);
    }
  }

  lemma CallKeeps(s: State, s': State, t: Tid)
    requires Inv(s) && (CallAcquire(s, s', t) || CallRelease(s, s', t) || CallWait(s, s', t))
    ensures Inv(s')
  {
    hide LocksAgree, ChannelAgrees, CvChannelAgrees, RefusedMeansHeld, NoLostWakeup;
    CallLocks(s, s', t); CallChannel(s, s', t); CallCv(s, s', t); CallWakeup(s, s', t);
  }

  lemma ReadyKeeps(s: State, t: Tid)
    requires Inv(s) && Ready(s, t)
    ensures Inv(After(s, t))
  {
    hide LocksAgree, ChannelAgrees, CvChannelAgrees, RefusedMeansHeld, NoLostWakeup, After;
    if Alone(s, t) {
      AloneLocks(s, t);
      AloneWakeup(s, t);
      if s.pc[t].Switching? { SwitchingChannel(s, t); } else { AloneChannel(s, t); }
      if s.pc[t].CvSwitching? { CvSwitchingCv(s, t); } else { AloneCv(s, t); }
    } else {
      PairWakeup(s, t);
      match s.pc[t] {
        case Freed(_) => FreedLocks(s, t); FreedChannel(s, t); FreedCv(s, t);
        case Waking(_, _) => WakingLocks(s, t); WakingChannel(s, t); WakingCv(s, t);
        case Signalled(_) => SignalledLocks(s, t); SignalledChannel(s, t); SignalledCv(s, t);
      }
    }
  }

  // ---------------------------------------------------------------- every run

  ghost predicate Next(s: State, s': State) {
    exists t :: Step(s, s', t)
  }

  /** A run: any interleaving of any number of threads, from a lock and a condition variable
      nobody has used. */
  ghost predicate Run(trace: seq<State>) {
    && trace != [] && Init(trace[0])
    && forall i :: 0 <= i < |trace| - 1 ==> Next(trace[i], trace[i + 1])
  }

  lemma {:induction false} RunKeeps(trace: seq<State>)
    requires Run(trace)
    ensures Inv(trace[|trace| - 1])
  {
    hide Inv, Step, Init;
    if |trace| == 1 {
      InitHolds(trace[0]);
    } else {
      var shorter, before := trace[..|trace| - 1], trace[|trace| - 2];
      assert forall i :: 0 <= i < |shorter| ==> shorter[i] == trace[i];
      RunKeeps(shorter);
      assert Next(before, trace[|trace| - 2 + 1]);
      var t :| Step(before, trace[|trace| - 1], t);
      StepKeeps(before, trace[|trace| - 1], t);
    }
  }

  lemma InitHolds(s: State)
    requires Init(s)
    ensures Inv(s)
  {
  }

  /** At most one thread is between lock_acquire and lock_release. */
  lemma MutualExclusion(trace: seq<State>, t: Tid, u: Tid)
    requires Run(trace)
    ensures var s := trace[|trace| - 1];
            t in s.pc && u in s.pc && Owns(s.pc[t]) && Owns(s.pc[u]) ==> t == u
  {
    RunKeeps(trace);
  }

  /** A free lock with a sleeper, and nobody in the middle of anything: that never happens. */
  lemma FreeLockHasNoSleepers(trace: seq<State>)
    requires Run(trace)
    requires var s := trace[|trace| - 1]; forall t :: t in s.pc ==> s.pc[t].Out? || s.pc[t].Asleep? || s.pc[t].CvAsleep?
    ensures trace[|trace| - 1].chan == []
  {
    RunKeeps(trace);
  }

  /** The threads that have let go of the lock in cv_wait and have not been signalled. */
  ghost function Waiters(s: State): set<Tid> {
    set t | t in s.pc && (HasCvChannel(s.pc[t]) || s.pc[t].CvAsleep?) && !Owns(s.pc[t])
  }

  /** Whenever a thread can look at the condition variable's channel, every waiter is on it. */
  lemma NoWaiterMissed(trace: seq<State>)
    requires Run(trace) && trace[|trace| - 1].cvLock.None?
    ensures var s := trace[|trace| - 1]; forall t :: t in Waiters(s) <==> t in s.cvChan
  {
    RunKeeps(trace);
  }

  /** A signal takes the waiter that has slept longest, if there is one; a broadcast takes all. */
  lemma SignalTakesOne(trace: seq<State>, s': State, t: Tid)
    requires Run(trace) && CallSignal(trace[|trace| - 1], s', t)
    ensures var s := trace[|trace| - 1];
            if s.cvChan == [] then Waiters(s) == {} && s'.pc[t] == Signalling([])
            else s.cvChan[0] in Waiters(s) && s'.pc[t] == Signalling([s.cvChan[0]]) && Waiters(s') == Waiters(s) - {s.cvChan[0]}
  {
    hide LocksAgree, ChannelAgrees, NoLostWakeup, RefusedMeansHeld, InHand;
    RunKeeps(trace);
    NoWaiterMissed(trace);
    var s := trace[|trace| - 1];
    HolderFacts(s, t);
    if s.cvChan != [] {
      assert s.cvChan[0] in s.cvChan && s.cvChan[..1] == [s.cvChan[0]];
    } else {
      assert s.cvChan[..0] == [];
    }
  }

  lemma BroadcastTakesAll(trace: seq<State>, s': State, t: Tid)
    requires Run(trace) && CallBroadcast(trace[|trace| - 1], s', t)
    ensures var s := trace[|trace| - 1];
            Waiters(s') == {} && s'.pc[t].Signalling? && forall u :: u in Waiters(s) <==> u in s'.pc[t].targets
  {
    hide ChannelAgrees, NoLostWakeup, RefusedMeansHeld, InHand;
    RunKeeps(trace);
    NoWaiterMissed(trace);
    var s := trace[|trace| - 1];
    assert s.cvChan[..|s.cvChan|] == s.cvChan;
  }

  /** The spinlocks are always taken in the same order: as long as some thread is in the middle of
      an operation and not waiting to be woken, some such thread can take its next step. */
  lemma NotStuck(s: State, t: Tid)
    requires Inv(s) && t in s.pc
    requires !s.pc[t].Out? && !s.pc[t].Inside? && !s.pc[t].Asleep? && !s.pc[t].Handed? && !s.pc[t].CvAsleep? && !s.pc[t].CvHanded?
    ensures exists u :: Ready(s, u)
  {
    var u := if s.chanLock.Some? then s.chanLock.value else if s.lock.Some? then s.lock.value else t;
    HolderFacts(s, u);
    assert Ready(s, u);
  }
}
