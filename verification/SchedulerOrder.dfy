/** In which order threads get their turn (thread/thread.c:276-300, 349-450, 648-702). */
module SchedulerOrder {
  import opened Fifo
  import opened Scheduler

  /** The actions that take the first thread of a list. */
  predicate Takes(a: Action, p: Place) {
    match a
    case PickNext(c) => p == Queue(c)
    case TakeSleeper(w, _) => p == Channel(w)
    case MakeRunnable(agent) => p == Hands(agent)
    case Exorcise(c) => p == Zombies(c)
    case _ => false
  }

  /** The one action that takes the last. */
  predicate TakesLast(a: Action, p: Place) {
    a.TakeVictim? && p == Queue(a.c)
  }

  function One(b: bool): nat {
    if b then 1 else 0
  }

  /** How often the first thread of a list is taken. */
  function Turns(actions: seq<Action>, p: Place): (n: nat)
    ensures n <= |actions|
  {
    if actions == [] then 0
    else Turns(actions[..|actions| - 1], p) + One(Takes(actions[|actions| - 1], p))
  }

  /** A run, with the action of each step. */
  ghost predicate Acts(run: seq<State>, actions: seq<Action>) {
    && |run| == |actions| + 1 && Init(run[0])
    && forall i :: 0 <= i < |actions| ==> Step(run[i], run[i + 1], actions[i])
  }

  lemma {:induction false} InvAlong(run: seq<State>, actions: seq<Action>, i: nat)
    requires Acts(run, actions) && i < |run|
    ensures Inv(run[i])
  {
    hide Inv, Init, Step;
    forall k | 0 <= k < |run| - 1
      ensures Next(run[k], run[k + 1])
    {
      assert Step(run[k], run[k + 1], actions[k]);
    }
    RunKeeps(run, i);
  }

  // ---------------------------------------------------------------- one step

  /** A thread is in one place only. */
  lemma Elsewhere(s: State, t: Tid, p: Place, q: Place)
    requires Inv(s) && IsAt(s, p, t) && p != q
    ensures t !in At(s, q)
  {
    hide Inv, At, IsRunning;
    ExactlyOnePlace(s, t);
    NoList(s, q);
    assert t in At(s, q) ==> IsAt(s, q, t);
  }

  lemma NoList(s: State, p: Place)
    requires Shape(s)
    ensures p.Running? ==> At(s, p) == []
  {
  }

  /** The thread that an action moves is not yet on the list that it goes to. */
  lemma Newcomer(s: State, a: Action, p: Place)
    requires Inv(s) && Enabled(s, a) && !p.Victims?
    ensures match a
            case Fork(_, agent, t) => t !in At(s, p)
            case TakeSleeper(w, _) => p != Channel(w) ==> At(s, Channel(w))[0] !in At(s, p)
            case MakeRunnable(agent) => p != Hands(agent) ==> At(s, Hands(agent))[0] !in At(s, p)
            case Yield(c) => s.cur[c] !in At(s, p)
            case Sleep(c, _) => s.cur[c] !in At(s, p)
            case Exit(c) => s.cur[c] !in At(s, p)
            case PlaceVictim(c, _) => At(s, Victims(c))[0] !in At(s, p)
            case ReturnVictim(c) => At(s, Victims(c))[0] !in At(s, p)
            case _ => true
  {
    hide Inv, At;
    match a
    case Fork(_, _, t) => ExactlyOnePlace(s, t); NotThere(s, t, p);
    case TakeSleeper(w, _) => if p != Channel(w) { Elsewhere(s, At(s, Channel(w))[0], Channel(w), p); }
    case MakeRunnable(agent) => if p != Hands(agent) { Elsewhere(s, At(s, Hands(agent))[0], Hands(agent), p); }
    case Yield(c) => CurrentElsewhere(s, c, p);
    case Sleep(c, _) => CurrentElsewhere(s, c, p);
    case Exit(c) => CurrentElsewhere(s, c, p);
    case PlaceVictim(c, _) => Elsewhere(s, At(s, Victims(c))[0], Victims(c), p);
    case ReturnVictim(c) => Elsewhere(s, At(s, Victims(c))[0], Victims(c), p);
    case _ =>
  }

  lemma NotThere(s: State, t: Tid, p: Place)
    requires Inv(s) && t !in s.cpuOf
    ensures t !in At(s, p)
  {
    hide Inv, At, IsRunning;
    ExactlyOnePlace(s, t);
    NoList(s, p);
    assert t in At(s, p) ==> IsAt(s, p, t);
  }

  lemma CurrentElsewhere(s: State, c: Cpu, p: Place)
    requires Inv(s) && CanSwitch(s, c)
    ensures s.cur[c] !in At(s, p)
  {
    hide Inv, At;
    ExactlyOnePlace(s, s.cur[c]);
    assert IsAt(s, Running(c), s.cur[c]);
    if p.Running? { NoList(s, p); } else { Elsewhere(s, s.cur[c], Running(c), p); }
  }

  lemma PassServes(s: State, s': State, a: Action, p: Place)
    requires Inv(s) && Step(s, s', a) && !p.Victims?
    requires a.TakeSleeper? || a.MakeRunnable? || a.PlaceVictim? || a.ReturnVictim?
    ensures ServedBy(At(s, p), At(s', p), One(Takes(a, p)))
  {
    hide Inv;
    Newcomer(s, a, p);
  }

  /** Every list but that of the victims is served in order of arrival, except for what
      thread_consider_migration takes from the end of a run queue. */
  lemma StepServes(s: State, s': State, a: Action, p: Place)
    requires Inv(s) && Step(s, s', a) && !p.Victims?
    ensures if TakesLast(a, p) then At(s, p) != [] && At(s', p) == Front(At(s, p))
            else ServedBy(At(s, p), At(s', p), One(Takes(a, p)))
  {
    hide Inv;
    if a.TakeSleeper? || a.MakeRunnable? || a.PlaceVictim? || a.ReturnVictim? {
      hide After, Enabled;
      PassServes(s, s', a, p);
    } else {
      Newcomer(s, a, p);
    }
  }

  // ---------------------------------------------------------------- every run

  /** From step i to step j, thread_consider_migration does not take this thread from the list. */
  ghost predicate Spared(run: seq<State>, actions: seq<Action>, p: Place, i: nat, j: nat, t: Tid)
    requires j <= |actions| && |run| == |actions| + 1
  {
    forall m :: i <= m < j && TakesLast(actions[m], p) && At(run[m], p) != [] ==> At(run[m], p)[|At(run[m], p)| - 1] != t
  }

  /** First come, first served: a thread on a list stands one place nearer the front after each turn, and
      at the front after as many turns as there were threads before it. */
  lemma {:induction false} PlaceInList(run: seq<State>, actions: seq<Action>, p: Place, i: nat, j: nat, k: nat)
    requires Acts(run, actions) && i <= j < |run| && !p.Victims? && k < |At(run[i], p)|
    requires Spared(run, actions, p, i, j, At(run[i], p)[k]) && Turns(actions[i..j], p) <= k
    ensures var n := Turns(actions[i..j], p);
            k - n < |At(run[j], p)| && At(run[j], p)[k - n] == At(run[i], p)[k]
  {
    hide Step, Init, At;
    if i < j {
      assert actions[i..j][..j - 1 - i] == actions[i..j - 1] && actions[i..j][j - 1 - i] == actions[j - 1];
      PlaceInList(run, actions, p, i, j - 1, k);
      StepAlong(run, actions, p, j - 1, k - Turns(actions[i..j - 1], p));
    }
  }

  lemma StepAlong(run: seq<State>, actions: seq<Action>, p: Place, j: nat, k: nat)
    requires Acts(run, actions) && j < |actions| && !p.Victims? && k < |At(run[j], p)|
    requires TakesLast(actions[j], p) ==> At(run[j], p)[|At(run[j], p)| - 1] != At(run[j], p)[k]
    requires One(Takes(actions[j], p)) <= k
    ensures var n := One(Takes(actions[j], p));
            k - n < |At(run[j + 1], p)| && At(run[j + 1], p)[k - n] == At(run[j], p)[k]
  {
    hide Inv, Step, At, Init;
    InvAlong(run, actions, j);
    StepServes(run[j], run[j + 1], actions[j], p);
    if !TakesLast(actions[j], p) {
      ExactlyOnePlace(run[j], At(run[j], p)[k]);
      MovedUp(At(run[j], p), At(run[j + 1], p), One(Takes(actions[j], p)), k);
    }
  }

  /** A thread that is queued on a cpu, and is not migrated, runs there when as many turns have been given
      as there were threads before it. */
  lemma QueueFirstCome(run: seq<State>, actions: seq<Action>, c: Cpu, i: nat, j: nat, k: nat)
    requires Acts(run, actions) && i <= j < |actions| && k < |At(run[i], Queue(c))|
    requires Spared(run, actions, Queue(c), i, j, At(run[i], Queue(c))[k])
    requires Turns(actions[i..j], Queue(c)) == k && actions[j] == PickNext(c)
    ensures Runs(run[j + 1], c, At(run[i], Queue(c))[k])
  {
    hide At, Init;
    PlaceInList(run, actions, Queue(c), i, j, k);
    assert Step(run[j], run[j + 1], actions[j]);
  }

  predicate Runs(s: State, c: Cpu, t: Tid) {
    c < |s.cur| && c < |s.idle| && s.cur[c] == t && !s.idle[c]
  }

  /** A sleeper is woken when as many have been woken as slept before it. */
  lemma ChannelFirstCome(run: seq<State>, actions: seq<Action>, w: nat, agent: nat, i: nat, j: nat, k: nat)
    requires Acts(run, actions) && i <= j < |actions| && k < |At(run[i], Channel(w))|
    requires Turns(actions[i..j], Channel(w)) == k && actions[j] == TakeSleeper(w, agent)
    ensures At(run[j + 1], Hands(agent)) == At(run[j], Hands(agent)) + [At(run[i], Channel(w))[k]]
  {
    hide Init;
    PlaceInList(run, actions, Channel(w), i, j, k);
    assert Step(run[j], run[j + 1], actions[j]);
  }

  /** A thread leaves a run queue only to run on that cpu, when it is the first, or to be migrated, when
      it is the last. */
  lemma LeavesQueue(s: State, s': State, a: Action, c: Cpu, t: Tid)
    requires Inv(s) && Step(s, s', a) && t in At(s, Queue(c)) && t !in At(s', Queue(c))
    ensures var q := At(s, Queue(c));
            || (a == PickNext(c) && q[0] == t && Runs(s', c, t))
            || (a == TakeVictim(c) && q[|q| - 1] == t && At(s', Victims(c)) == [t] + At(s, Victims(c)))
  {
    hide Inv;
    StepServes(s, s', a, Queue(c));
    var k :| 0 <= k < |At(s, Queue(c))| && At(s, Queue(c))[k] == t;
    if !TakesLast(a, Queue(c)) {
      ExactlyOnePlace(s, t);
      MovedUp(At(s, Queue(c)), At(s', Queue(c)), One(Takes(a, Queue(c))), k);
    }
  }

  // ---------------------------------------------------------------- from start to turn

  /** A thread that yields runs again after every thread that was queued before it. */
  lemma YieldWaitsItsTurn(run: seq<State>, actions: seq<Action>, c: Cpu, i: nat, j: nat)
    requires Acts(run, actions) && i < j < |actions| && actions[i] == Yield(c) && actions[j] == PickNext(c)
    requires c < |run[i].cur| && Spared(run, actions, Queue(c), i + 1, j, run[i].cur[c])
    requires Turns(actions[i + 1..j], Queue(c)) == |At(run[i], Queue(c))|
    ensures Runs(run[j + 1], c, run[i].cur[c])
  {
    hide Init;
    assert Step(run[i], run[i + 1], actions[i]);
    QueueFirstCome(run, actions, c, i + 1, j, |At(run[i], Queue(c))|);
  }

  /** A thread that goes to sleep is woken after every thread that slept there before it. */
  lemma SleeperWaitsItsTurn(run: seq<State>, actions: seq<Action>, c: Cpu, w: nat, agent: nat, i: nat, j: nat)
    requires Acts(run, actions) && i < j < |actions| && actions[i] == Sleep(c, w) && actions[j] == TakeSleeper(w, agent)
    requires c < |run[i].cur| && Turns(actions[i + 1..j], Channel(w)) == |At(run[i], Channel(w))|
    ensures At(run[j + 1], Hands(agent)) == At(run[j], Hands(agent)) + [run[i].cur[c]]
  {
    hide Init;
    assert Step(run[i], run[i + 1], actions[i]);
    ChannelFirstCome(run, actions, w, agent, i + 1, j, |At(run[i], Channel(w))|);
  }

  /** A thread that is made runnable runs on the cpu that it belongs to, */
  lemma RunnableWaitsItsTurn(run: seq<State>, actions: seq<Action>, c: Cpu, agent: nat, i: nat, j: nat)
    requires Acts(run, actions) && i < j < |actions| && actions[i] == MakeRunnable(agent) && actions[j] == PickNext(c)
    requires var hands := At(run[i], Hands(agent)); hands != [] && hands[0] in run[i].cpuOf && run[i].cpuOf[hands[0]] == c
    requires Spared(run, actions, Queue(c), i + 1, j, At(run[i], Hands(agent))[0])
    requires Turns(actions[i + 1..j], Queue(c)) == |At(run[i], Queue(c))|
    ensures Runs(run[j + 1], c, At(run[i], Hands(agent))[0])
  {
    hide Init;
    assert Step(run[i], run[i + 1], actions[i]);
    QueueFirstCome(run, actions, c, i + 1, j, |At(run[i], Queue(c))|);
  }

  /** and one that is migrated on the cpu that it is sent to. */
  lemma MigratedWaitsItsTurn(run: seq<State>, actions: seq<Action>, c: Cpu, d: Cpu, i: nat, j: nat)
    requires Acts(run, actions) && i < j < |actions| && actions[i] == PlaceVictim(c, d) && actions[j] == PickNext(d)
    requires At(run[i], Victims(c)) != [] && c < |run[i].cur| && At(run[i], Victims(c))[0] != run[i].cur[c]
    requires Spared(run, actions, Queue(d), i + 1, j, At(run[i], Victims(c))[0])
    requires Turns(actions[i + 1..j], Queue(d)) == |At(run[i], Queue(d))|
    ensures Runs(run[j + 1], d, At(run[i], Victims(c))[0])
  {
    hide Init;
    assert Step(run[i], run[i + 1], actions[i]);
    QueueFirstCome(run, actions, d, i + 1, j, |At(run[i], Queue(d))|);
  }

  /** One that cannot be sent anywhere is queued again on the cpu that it came from. */
  lemma ReturnedWaitsItsTurn(run: seq<State>, actions: seq<Action>, c: Cpu, i: nat, j: nat)
    requires Acts(run, actions) && i < j < |actions| && actions[i] == ReturnVictim(c) && actions[j] == PickNext(c)
    requires At(run[i], Victims(c)) != [] && Spared(run, actions, Queue(c), i + 1, j, At(run[i], Victims(c))[0])
    requires Turns(actions[i + 1..j], Queue(c)) == |At(run[i], Queue(c))|
    ensures Runs(run[j + 1], c, At(run[i], Victims(c))[0])
  {
    hide Init;
    assert Step(run[i], run[i + 1], actions[i]);
    QueueFirstCome(run, actions, c, i + 1, j, |At(run[i], Queue(c))|);
  }

  /** A thread that has been forked is made runnable after those that the same thread had in its hands. */
  lemma ForkedWaitsItsTurn(run: seq<State>, actions: seq<Action>, c: Cpu, agent: nat, t: Tid, i: nat, j: nat)
    requires Acts(run, actions) && i < j < |actions| && actions[i] == Fork(c, agent, t) && actions[j] == MakeRunnable(agent)
    requires Turns(actions[i + 1..j], Hands(agent)) == |At(run[i], Hands(agent))|
    ensures t in run[j].cpuOf && var home := Queue(run[j].cpuOf[t]); At(run[j + 1], home) == At(run[j], home) + [t]
  {
    hide Init, After;
    assert Step(run[i], run[i + 1], actions[i]);
    Forked(run[i], run[i + 1], c, agent, t);
    PlaceInList(run, actions, Hands(agent), i + 1, j, |At(run[i], Hands(agent))|);
    assert Step(run[j], run[j + 1], actions[j]);
    MadeRunnable(run[j], run[j + 1], agent);
  }

  lemma Forked(s: State, s': State, c: Cpu, agent: nat, t: Tid)
    requires Step(s, s', Fork(c, agent, t))
    ensures At(s', Hands(agent)) == At(s, Hands(agent)) + [t]
  {
  }

  lemma MadeRunnable(s: State, s': State, agent: nat)
    requires Step(s, s', MakeRunnable(agent))
    ensures var t := At(s, Hands(agent))[0];
            t in s.cpuOf && At(s', Queue(s.cpuOf[t])) == At(s, Queue(s.cpuOf[t])) + [t]
  {
  }

  /** Only migration changes the cpu of a thread, and never that of a cpu's current thread; a new thread
      has the cpu of the thread that forks it. */
  lemma CpuOfThread(s: State, s': State, a: Action, t: Tid)
    requires Inv(s) && Step(s, s', a) && t in s'.cpuOf
    ensures t !in s.cpuOf ==> a.Fork? && a.t == t && s'.cpuOf[t] == a.c
    ensures t in s.cpuOf && s'.cpuOf[t] != s.cpuOf[t] ==>
              a.PlaceVictim? && s.cpuOf[t] == a.c && s'.cpuOf[t] == a.d && At(s, Victims(a.c))[0] == t && s.cur[a.c] != t
  {
    hide Inv;
    match a
    case Fork(c, _, _) => QueuedWhereItBelongs(s, c, t);
    case PlaceVictim(c, _) => VictimBelongs(s, c);
    case _ =>
  }

  lemma VictimBelongs(s: State, c: Cpu)
    requires Inv(s) && At(s, Victims(c)) != []
    ensures At(s, Victims(c))[0] in s.cpuOf && s.cpuOf[At(s, Victims(c))[0]] == c
  {
    hide InvAt;
    var place :| InvAt(s, place);
    VictimHome(s, place, c);
  }

  /** An idle cpu that waits with a thread on its run queue has an interrupt coming, and when it comes the
      cpu picks the first thread of its queue. */
  lemma WaitingCpuPicks(s: State, c: Cpu)
    requires Inv(s) && Shape(s) && c < |s.cur| && s.asleep[c] && At(s, Queue(c)) != []
    ensures s.ipi[c] && Enabled(s, Interrupt(c, true))
    ensures var s' := After(s, Interrupt(c, true));
            Shape(s') && Enabled(s', PickNext(c)) && Runs(After(s', PickNext(c)), c, At(s, Queue(c))[0])
  {
    hide Placed, Homes;
    var place :| InvAt(s, place);
  }

  /** A cpu that has found its run queue empty does not look at it again before an interrupt. */
  lemma {:induction false} WaitsForInterrupt(run: seq<State>, actions: seq<Action>, c: Cpu, i: nat, j: nat)
    requires Acts(run, actions) && i < j < |actions| && actions[i] == Wait(c) && (actions[j] == PickNext(c) || actions[j] == Wait(c))
    ensures exists k :: i < k < j && actions[k].Interrupt? && actions[k].c == c
  {
    hide Init;
    assert Step(run[i], run[i + 1], actions[i]);
    assert Step(run[j], run[j + 1], actions[j]);
    if forall k :: i < k < j && actions[k].Interrupt? ==> actions[k].c != c {
      StaysAsleep(run, actions, c, i + 1, j);
    }
  }

  lemma {:induction false} StaysAsleep(run: seq<State>, actions: seq<Action>, c: Cpu, i: nat, j: nat)
    requires Acts(run, actions) && i <= j < |run| && c < |run[i].asleep| && run[i].asleep[c]
    requires forall k :: i <= k < j && actions[k].Interrupt? ==> actions[k].c != c
    ensures c < |run[j].asleep| && run[j].asleep[c]
  {
    hide Init;
    if i < j {
      StaysAsleep(run, actions, c, i, j - 1);
      assert Step(run[j - 1], run[j - 1 + 1], actions[j - 1]);
    }
  }
}
