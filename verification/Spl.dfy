/** Interrupt levels and spinlocks (thread/spl.c:86-159, thread/spinlock.c:75-136), and how thread_switch
    and the trap handler use them (thread/thread.c:340-343, 359-450; arch/mips/locore/trap.c:137-177).

    A method is a step of one cpu; steps of different cpus interleave. Acquiring a spinlock is raising
    the level and then testing the lock word until it is found free; releasing one is clearing the word
    and then lowering the level. */
module Spl {

  const IPL_NONE: nat := 0
  const IPL_HIGH: nat := 1

  class Thread {
    var curspl: nat
    var iplhighCount: int

    /** thread_create. */
    constructor ()
      ensures curspl == IPL_HIGH && iplhighCount == 1
    {
      curspl, iplhighCount := IPL_HIGH, 1;
    }
  }

  class Cpu {
    var curthread: Thread
    var irqOn: bool

    constructor (t: Thread)
      ensures curthread == t && !irqOn
    {
      curthread, irqOn := t, false;
    }
  }

  class Spinlock {
    var locked: bool
    var holder: Cpu?

    constructor ()
      ensures !locked && holder == null
    {
      locked, holder := false, null;
    }
  }

  /** Why a thread has raised the level once more than its own level and its spinlocks account for. */
  datatype Reason = Spinning(lock: Spinlock) | Releasing | SwitchedOut

  ghost function Charged(charge: map<Spinlock, Thread>, t: Thread): set<Spinlock> {
    set l | l in charge && charge[l] == t
  }

  lemma ChargeMore(charge: map<Spinlock, Thread>, l: Spinlock, t: Thread)
    requires l !in charge
    ensures |Charged(charge[l := t], t)| == |Charged(charge, t)| + 1
    ensures forall u :: u != t ==> Charged(charge[l := t], u) == Charged(charge, u)
  {
    assert Charged(charge[l := t], t) == Charged(charge, t) + {l};
  }

  lemma ChargeLess(charge: map<Spinlock, Thread>, l: Spinlock, t: Thread)
    requires l in charge && charge[l] == t
    ensures |Charged(charge - {l}, t)| == |Charged(charge, t)| - 1
    ensures forall u :: u != t ==> Charged(charge - {l}, u) == Charged(charge, u)
  {
    assert Charged(charge, t) == Charged(charge - {l}, t) + {l};
  }

  /** The lock is handed to another thread. */
  lemma ChargeMoved(charge: map<Spinlock, Thread>, l: Spinlock, t: Thread, u: Thread)
    requires l in charge && charge[l] == t && u != t
    ensures |Charged(charge[l := u], t)| == |Charged(charge, t)| - 1
    ensures |Charged(charge[l := u], u)| == |Charged(charge, u)| + 1
    ensures forall v :: v != t && v != u ==> Charged(charge[l := u], v) == Charged(charge, v)
  {
    assert Charged(charge, t) == Charged(charge[l := u], t) + {l};
    assert Charged(charge[l := u], u) == Charged(charge, u) + {l};
  }

  ghost function Exchanged(pending: map<Thread, Reason>, out: Thread, next: Thread): map<Thread, Reason> {
    (pending - {next})[out := SwitchedOut]
  }

  ghost function Replaced(running: map<Thread, Cpu>, out: Thread, next: Thread, c: Cpu): map<Thread, Cpu> {
    (running - {out})[next := c]
  }

  /** A lock that is the only one a thread has becomes the only one that another has. */
  lemma HandedOver(charge: map<Spinlock, Thread>, l: Spinlock, t: Thread, u: Thread)
    requires Charged(charge, t) == {l} && Charged(charge, u) == {}
    ensures l in charge && charge[l] == t && Charged(charge[l := u], u) == {l}
  {
    assert l in Charged(charge, t);
    forall m | m in charge && m != l
      ensures charge[m] != u
    {
      assert m !in Charged(charge, u);
    }
  }

  class Machine {
    ghost var threads: set<Thread>
    ghost var cpus: set<Cpu>
    ghost var locks: set<Spinlock>
    ghost var charge: map<Spinlock, Thread>     // the thread that accounts for each held spinlock
    ghost var pending: map<Thread, Reason>
    ghost var running: map<Thread, Cpu>

    ghost predicate Counts(t: Thread)
      reads this, t
    {
      && t.curspl <= IPL_HIGH
      && t.iplhighCount == t.curspl + |Charged(charge, t)| + if t in pending then 1 else 0
    }

    ghost predicate Held(l: Spinlock)
      reads this, l, cpus
    {
      && (l.locked <==> l in charge)
      && (l in charge ==> l.holder != null && l.holder in cpus && l.holder.curthread == charge[l])
      && (l !in charge ==> l.holder == null)
    }

    /** A cpu and its current thread. */
    ghost predicate Runs(c: Cpu)
      reads this, threads, c
    {
      && c.curthread in threads && c.curthread in running && running[c.curthread] == c
      && (c.irqOn <==> c.curthread.iplhighCount == 0)
    }

    ghost predicate Threads()
      reads this, threads
    {
      && (forall t :: t in threads ==> Counts(t))
      && pending.Keys <= threads && (forall l :: l in charge ==> charge[l] in threads)
      && (forall t :: t in threads ==> (t in pending && pending[t].SwitchedOut? <==> t !in running))
    }

    ghost predicate Cpus()
      reads this, threads, cpus
    {
      (forall c :: c in cpus ==> Runs(c)) && forall t :: t in running ==> running[t] in cpus && running[t].curthread == t
    }

    ghost predicate Locks()
      reads this, cpus, locks
    {
      charge.Keys <= locks && forall l :: l in locks ==> Held(l)
    }

    /** The level is raised as often as it should be; interrupts are on exactly when it is not raised;
        and a held spinlock is held by the current thread of the cpu that it names. */
    ghost predicate Valid()
      reads this, threads, cpus, locks
    {
      Threads() && Cpus() && Locks()
    }

    lemma Facts(c: Cpu)
      requires Valid() && c in cpus
      ensures Counts(c.curthread) && Runs(c)
      ensures c.curthread in pending ==> !pending[c.curthread].SwitchedOut?
      ensures pending.Keys <= threads && charge.Keys <= locks && forall l :: l in charge ==> charge[l] in threads
    {
      hide Charged;
    }

    /** The cpu that a held spinlock names is the one whose thread holds it. */
    lemma LockFacts(c: Cpu, l: Spinlock)
      requires Valid() && l in locks && c in cpus
      ensures Held(l) && (l.holder == c <==> l in charge && charge[l] == c.curthread)
    {
      hide Machine.Threads;
      assert Runs(c);
      if l in charge {
        assert Runs(l.holder);
      }
    }

    twostate lemma KeptLocks()
      requires old(Locks()) && locks == old(locks) && old(cpus) <= cpus && charge == old(charge)
      requires (forall l :: l in locks ==> unchanged(l)) && forall c :: c in old(cpus) ==> c.curthread == old(c.curthread)
      ensures Locks()
    {
      forall l | l in locks
        ensures Held(l)
      {
        assert old(Held(l));
      }
    }

    twostate lemma KeptOtherLocks(x: Spinlock)
      requires x in old(locks) && old(Locks()) && locks == old(locks) && cpus == old(cpus)
      requires (forall l :: l in locks && l != x ==> unchanged(l) && (l in charge <==> l in old(charge)))
      requires forall l :: l in charge && l != x ==> l in old(charge) && charge[l] == old(charge)[l]
      requires charge.Keys <= locks && Held(x) && forall c :: c in cpus ==> c.curthread == old(c.curthread)
      ensures Locks()
    {
      forall l | l in locks
        ensures Held(l)
      {
        assert old(Held(l));
      }
    }

    twostate lemma KeptCpus(c: Cpu)
      requires c in old(cpus) && old(Cpus()) && cpus == old(cpus) && threads == old(threads) && running == old(running)
      requires c.curthread == old(c.curthread) && Runs(c)
      requires (forall d :: d in cpus && d != c ==> unchanged(d)) && forall t :: t in threads && t != c.curthread ==> unchanged(t)
      ensures Cpus()
    {
      forall d | d in cpus
        ensures Runs(d)
      {
        assert old(Runs(d)) && old(Runs(c));
      }
    }

    twostate lemma KeptThreads(t: Thread)
      requires t in old(threads) && old(Threads()) && threads == old(threads) && running == old(running)
      requires Counts(t) && (t in pending && pending[t].SwitchedOut? <==> t !in running)
      requires forall u :: u in threads && u != t ==> unchanged(u) && (u in pending <==> u in old(pending))
      requires forall u :: u in pending && u != t ==> u in old(pending) && pending[u] == old(pending)[u]
      requires forall u :: u in threads && u != t ==> |Charged(charge, u)| == |Charged(old(charge), u)|
      requires pending.Keys <= threads && forall l :: l in charge ==> charge[l] in threads
      ensures Threads()
    {
      hide Charged;
      forall u | u in threads
        ensures Counts(u)
      {
        assert old(Counts(u));
      }
    }

    // -------------------------------------------------------------- spl.c

    method SplRaise(c: Cpu)
      modifies c`irqOn, c.curthread`iplhighCount
      requires c.curthread.iplhighCount >= 0 && (c.irqOn <==> c.curthread.iplhighCount == 0)
      ensures c.curthread.iplhighCount == old(c.curthread.iplhighCount) + 1 && !c.irqOn
    {
      if c.curthread.iplhighCount == 0 {
        c.irqOn := false;
      }
      c.curthread.iplhighCount := c.curthread.iplhighCount + 1;
    }

    method SplLower(c: Cpu)
      modifies c`irqOn, c.curthread`iplhighCount
      requires c.curthread.iplhighCount > 0 && !c.irqOn
      ensures c.curthread.iplhighCount == old(c.curthread.iplhighCount) - 1
      ensures c.irqOn <==> c.curthread.iplhighCount == 0
    {
      c.curthread.iplhighCount := c.curthread.iplhighCount - 1;
      if c.curthread.iplhighCount == 0 {
        c.irqOn := true;
      }
    }

    /** splx, of which splhigh and spl0 are cases. Spinlocks held do not matter, nor does any nesting. */
    method Splx(c: Cpu, spl: nat) returns (ret: nat)
      requires Valid() && c in cpus && spl <= IPL_HIGH && c.curthread !in pending
      modifies c`irqOn, c.curthread`iplhighCount, c.curthread`curspl
      ensures Valid() && ret == old(c.curthread.curspl) && c.curthread.curspl == spl
    {
      hide Charged, Machine.Threads, Machine.Cpus, Machine.Locks;
      var cur := c.curthread;
      Facts(c);
      if cur.curspl < spl {
        SplRaise(c);
        ret := cur.curspl;
        cur.curspl := spl;
      } else if cur.curspl > spl {
        ret := cur.curspl;
        cur.curspl := spl;
        SplLower(c);
      } else {
        ret := spl;
      }
      KeptThreads(cur);
      KeptCpus(c);
      KeptLocks();
    }

    // -------------------------------------------------------------- spinlock.c

    /** The beginning of spinlock_acquire. It panics exactly when the thread holds the lock already. */
    method AcquireBegin(c: Cpu, l: Spinlock) returns (panic: bool)
      requires Valid() && c in cpus && l in locks && c.curthread !in pending
      modifies this`pending, c`irqOn, c.curthread`iplhighCount
      ensures panic <==> l in charge && charge[l] == c.curthread
      ensures !panic ==> Valid() && !c.irqOn && pending == old(pending)[c.curthread := Spinning(l)]
    {
      hide Charged, Machine.Threads, Machine.Cpus, Machine.Locks;
      Facts(c);
      LockFacts(c, l);
      SplRaise(c);
      if l.holder == c {
        return true;
      }
      panic := false;
      pending := pending[c.curthread := Spinning(l)];
      KeptThreads(c.curthread);
      KeptCpus(c);
      KeptLocks();
    }

    /** One look at the lock word: if it is free, it is taken. */
    method TryTake(c: Cpu, l: Spinlock) returns (got: bool)
      requires Valid() && c in cpus && l in locks && c.curthread in pending && pending[c.curthread] == Spinning(l)
      modifies this`pending, this`charge, l
      ensures Valid() && (got <==> l !in old(charge))
      ensures !got ==> charge == old(charge) && pending == old(pending)
      ensures got ==> charge == old(charge)[l := c.curthread] && pending == old(pending) - {c.curthread}
    {
      hide Charged, Machine.Threads, Machine.Cpus, Machine.Locks;
      Facts(c);
      LockFacts(c, l);
      if l.locked {
        return false;
      }
      ChargeMore(charge, l, c.curthread);
      l.locked := true;
      l.holder := c;
      charge := charge[l := c.curthread];
      pending := pending - {c.curthread};
      got := true;
      KeptThreads(c.curthread);
      KeptCpus(c);
      KeptOtherLocks(l);
    }

    /** The first half of spinlock_release. Its assertion holds for whoever holds the lock. */
    method ReleaseData(c: Cpu, l: Spinlock)
      requires Valid() && c in cpus && l in charge && charge[l] == c.curthread && c.curthread !in pending
      modifies this`pending, this`charge, l
      ensures Valid() && charge == old(charge) - {l} && pending == old(pending)[c.curthread := Releasing]
    {
      hide Charged, Machine.Threads, Machine.Cpus, Machine.Locks;
      Facts(c);
      LockFacts(c, l);
      assert l.holder == c;
      ChargeLess(charge, l, c.curthread);
      l.holder := null;
      l.locked := false;
      charge := charge - {l};
      pending := pending[c.curthread := Releasing];
      KeptThreads(c.curthread);
      KeptCpus(c);
      KeptOtherLocks(l);
    }

    /** The second half. */
    method ReleaseLower(c: Cpu)
      requires Valid() && c in cpus && c.curthread in pending && pending[c.curthread] == Releasing
      modifies this`pending, c`irqOn, c.curthread`iplhighCount
      ensures Valid() && pending == old(pending) - {c.curthread}
    {
      hide Charged, Machine.Threads, Machine.Cpus, Machine.Locks;
      Facts(c);
      SplLower(c);
      pending := pending - {c.curthread};
      KeptThreads(c.curthread);
      KeptCpus(c);
      KeptLocks();
    }

    // -------------------------------------------------------------- threads

    /** Nothing exists yet. */
    constructor ()
      ensures Valid() && cpus == {} && locks == {}
    {
      threads, cpus, locks, charge, pending, running := {}, {}, {}, map[], map[], map[];
    }

    /** cpu_create: the cpu runs a thread of its own, with interrupts off. */
    method AddCpu() returns (c: Cpu)
      requires Valid()
      modifies this
      ensures Valid() && fresh(c) && cpus == old(cpus) + {c} && charge == old(charge)
      ensures pending == old(pending) && threads == old(threads) + {c.curthread} && fresh(c.curthread) && locks == old(locks)
    {
      hide Charged, Machine.Threads, Machine.Cpus, Machine.Locks;
      var t := new Thread();
      c := new Cpu(t);
      NewIsUnknown(t);
      threads, cpus, running := threads + {t}, cpus + {c}, running[t := c];
      AddedThreads(t);
      AddedCpus(t, c);
      KeptLocks();
    }

    twostate lemma NewIsUnknown(new t: Thread)
      requires old(Valid()) && unchanged(this) && fresh(t)
      ensures t !in threads && t !in pending && t !in running && Charged(charge, t) == {}
    {
      hide Machine.Locks;
      assert forall l :: l in charge ==> charge[l] in threads;
    }

    twostate lemma AddedThreads(new t: Thread)
      requires old(Threads()) && t !in old(threads) && threads == old(threads) + {t} && charge == old(charge)
      requires Counts(t) && forall u :: u in old(threads) ==> unchanged(u)
      requires pending == old(pending) || pending == old(pending)[t := SwitchedOut]
      requires t in pending && pending[t].SwitchedOut? <==> t !in running
      requires forall u :: u in old(threads) ==> (u in running <==> u in old(running))
      ensures Threads()
    {
      hide Charged;
      forall u | u in threads
        ensures Counts(u)
      {
        assert u != t ==> old(Counts(u));
      }
    }

    twostate lemma AddedCpus(new t: Thread, new c: Cpu)
      requires old(Cpus()) && old(Threads()) && t !in old(threads) && threads == old(threads) + {t} && c !in old(cpus) && cpus == old(cpus) + {c}
      requires running == old(running)[t := c] && Runs(c) && c.curthread == t && t !in old(running)
      requires (forall u :: u in old(threads) ==> unchanged(u)) && forall d :: d in old(cpus) ==> unchanged(d)
      ensures Cpus()
    {
      hide Charged, Machine.Threads;
      forall d | d in cpus
        ensures Runs(d)
      {
        assert d != c ==> old(Runs(d));
      }
    }

    lemma NoCharge(t: Thread)
      requires Valid() && (t in threads ==> t !in running)
      ensures Charged(charge, t) == {}
    {
      forall l | l in charge
        ensures charge[l] != t
      {
        assert Held(l);
      }
    }

    /** thread_create and the increment in thread_fork: the level is raised as if the thread had been
        switched out. */
    method NewThread() returns (t: Thread)
      requires Valid()
      modifies this`threads, this`pending
      ensures Valid() && fresh(t) && threads == old(threads) + {t} && pending == old(pending)[t := SwitchedOut]
    {
      hide Charged, Machine.Threads, Machine.Cpus, Machine.Locks;
      t := new Thread();
      NewIsUnknown(t);
      t.iplhighCount := t.iplhighCount + 1;
      threads, pending := threads + {t}, pending[t := SwitchedOut];
      AddedThreads(t);
      SameCpus();
      KeptLocks();
    }

    twostate lemma SameCpus()
      requires old(Cpus()) && cpus == old(cpus) && running == old(running) && old(threads) <= threads
      requires (forall d :: d in cpus ==> unchanged(d)) && forall u :: u in old(threads) ==> unchanged(u)
      ensures Cpus()
    {
      forall d | d in cpus
        ensures Runs(d)
      {
        assert old(Runs(d));
      }
    }

    twostate lemma SwitchedThreads(new c: Cpu, new rq: Spinlock, new next: Thread)
      requires old(Valid()) && threads == old(threads) && cpus == old(cpus) && locks == old(locks)
      requires c in old(cpus) && next in old(threads) && next != old(c.curthread) && c.curthread == next && c.irqOn == old(c.irqOn)
      requires forall d :: d in old(cpus) && d != c ==> unchanged(d)
      requires (forall t :: t in old(threads) ==> unchanged(t)) && (forall l :: l in old(locks) ==> unchanged(l))
      requires rq in old(charge) && charge == old(charge)[rq := next] && old(charge)[rq] == old(c.curthread)
      requires pending == Exchanged(old(pending), old(c.curthread), next)
      requires old(c.curthread) !in old(pending) && next in old(pending) && old(pending)[next] == SwitchedOut
      requires running == Replaced(old(running), old(c.curthread), next, c)
      ensures Threads()
    {
      hide Charged, Machine.Locks;
      assert old(Runs(c));
      ChargeMoved(old(charge), rq, old(c.curthread), next);
      forall t | t in threads
        ensures Counts(t)
      {
        assert old(Counts(t));
      }
    }

    twostate lemma SwitchedCpus(new c: Cpu, new rq: Spinlock, new next: Thread)
      requires old(Valid()) && threads == old(threads) && cpus == old(cpus) && locks == old(locks)
      requires c in old(cpus) && next in old(threads) && next != old(c.curthread) && c.curthread == next && c.irqOn == old(c.irqOn)
      requires forall d :: d in old(cpus) && d != c ==> unchanged(d)
      requires (forall t :: t in old(threads) ==> unchanged(t)) && (forall l :: l in old(locks) ==> unchanged(l))
      requires rq in old(charge) && charge == old(charge)[rq := next] && old(charge)[rq] == old(c.curthread)
      requires pending == Exchanged(old(pending), old(c.curthread), next)
      requires old(c.curthread) !in old(pending) && next in old(pending) && old(pending)[next] == SwitchedOut
      requires running == Replaced(old(running), old(c.curthread), next, c)
      requires |Charged(old(charge), old(c.curthread))| > 0
      ensures Cpus()
    {
      hide Charged, Machine.Locks;
      assert old(Counts(c.curthread)) && old(Counts(next)) && old(Runs(c));
      forall d | d in cpus
        ensures Runs(d)
      {
        assert old(Runs(d));
      }
    }

    twostate lemma SwitchedLocks(new c: Cpu, new rq: Spinlock, new next: Thread)
      requires old(Valid()) && threads == old(threads) && cpus == old(cpus) && locks == old(locks)
      requires c in old(cpus) && next in old(threads) && next != old(c.curthread) && c.curthread == next && c.irqOn == old(c.irqOn)
      requires forall d :: d in old(cpus) && d != c ==> unchanged(d)
      requires (forall t :: t in old(threads) ==> unchanged(t)) && (forall l :: l in old(locks) ==> unchanged(l))
      requires rq in old(charge) && charge == old(charge)[rq := next] && old(charge)[rq] == old(c.curthread)
      requires Charged(old(charge), old(c.curthread)) == {rq}
      ensures Locks()
    {
      hide Machine.Threads;
      assert old(Runs(c)) && old(Held(rq));
      assert old(Runs(rq.holder));
      forall l | l in locks
        ensures Held(l)
      {
        assert old(Held(l));
        assert l in old(charge) && l != rq ==> l !in Charged(old(charge), old(c.curthread));
      }
    }

    /** The run queue's lock, the only one held, is from now on the other thread's to release. */
    method HandOver(c: Cpu, rq: Spinlock, next: Thread)
      requires Valid() && c in cpus && c.curthread !in pending && Charged(charge, c.curthread) == {rq}
      requires next != c.curthread && next in pending && pending[next] == SwitchedOut
      modifies this`charge, this`pending, this`running, c`curthread
      ensures Valid() && c.curthread == next
      ensures charge == old(charge)[rq := next] && Charged(charge, next) == {rq}
      ensures pending == Exchanged(old(pending), old(c.curthread), next)
    {
      hide Charged, Exchanged, Replaced, Machine.Threads, Machine.Cpus, Machine.Locks;
      var cur := c.curthread;
      OneLock(c, rq);
      SwitchedOutFacts(next);
      HandedOver(charge, rq, cur, next);
      c.curthread := next;
      charge := charge[rq := next];
      pending := Exchanged(pending, cur, next);
      running := Replaced(running, cur, next, c);
      SwitchedThreads(c, rq, next);
      SwitchedCpus(c, rq, next);
      SwitchedLocks(c, rq, next);
    }

    /** thread_switch goes over to another thread, or back to the same. */
    method SwitchTo(c: Cpu, rq: Spinlock, next: Thread)
      requires Valid() && c in cpus && c.curthread !in pending && Charged(charge, c.curthread) == {rq}
      requires next == c.curthread || (next in pending && pending[next] == SwitchedOut)
      modifies this`charge, this`pending, this`running, c`curthread
      ensures Valid() && c.curthread == next && next !in pending && !c.irqOn
      ensures charge == old(charge)[rq := next] && Charged(charge, next) == {rq}
    {
      hide Charged, Machine.Threads, Machine.Cpus, Machine.Locks;
      OneLock(c, rq);
      if next != c.curthread {
        HandOver(c, rq, next);
      }
      OneLock(c, rq);
    }

    lemma OneLock(c: Cpu, rq: Spinlock)
      requires Valid() && c in cpus && Charged(charge, c.curthread) == {rq}
      ensures rq in charge && charge[rq] == c.curthread && !c.irqOn && charge == charge[rq := c.curthread]
    {
      assert rq in Charged(charge, c.curthread);
      Facts(c);
    }

    lemma SwitchedOutFacts(t: Thread)
      requires Valid() && t in pending && pending[t] == SwitchedOut
      ensures t in threads && t !in running && Charged(charge, t) == {}
    {
      NoCharge(t);
    }

    /** spinlock_init. */
    method AddLock() returns (l: Spinlock)
      requires Valid()
      modifies this`locks
      ensures Valid() && fresh(l) && locks == old(locks) + {l} && !l.locked
    {
      l := new Spinlock();
      locks := locks + {l};
    }

    /** thread_startup, in a new thread that has just been switched to: it lets go of the run queue's
        lock, and spl0 turns interrupts on. */
    method Startup(c: Cpu, rq: Spinlock)
      requires Valid() && c in cpus && c.curthread !in pending && Charged(charge, c.curthread) == {rq}
      requires c.curthread.curspl == IPL_HIGH
      modifies this`pending, this`charge, rq, c`irqOn, c.curthread`iplhighCount, c.curthread`curspl
      ensures Valid() && c.irqOn && c.curthread.iplhighCount == 0 && charge == old(charge) - {rq}
    {
      hide Machine.Threads, Machine.Cpus, Machine.Locks;
      OneLock(c, rq);
      LockIsKnown(rq);
      ReleaseData(c, rq);
      ReleaseLower(c);
      var old0 := Splx(c, IPL_NONE);
      Facts(c);
      assert Charged(charge, c.curthread) == {};
    }

    lemma LockIsKnown(l: Spinlock)
      requires Valid() && l in charge
      ensures l in locks
    {
    }

    /** While a spinlock is held, interrupts are off on the cpu that holds it, whatever splx has been
        called with since. */
    lemma NoInterruptsWhileHeld(l: Spinlock)
      requires Valid() && l in charge
      ensures l.holder != null && l.holder in cpus && !l.holder.irqOn && l.holder.curthread == charge[l]
    {
      assert Held(l) && Runs(l.holder) && Counts(charge[l]);
      assert l in Charged(charge, charge[l]);
    }

    // -------------------------------------------------------------- interrupts

    /** The trap handler takes an interrupt: either interrupts were on, or an idle cpu has let them
        through with the level raised. The first of its assertions always holds. */
    method InterruptIn(c: Cpu) returns (doAdjust: bool)
      requires Valid() && c in cpus && c.curthread !in pending && (c.irqOn || c.curthread.curspl == IPL_HIGH)
      modifies c`irqOn, c.curthread`iplhighCount, c.curthread`curspl
      ensures Valid() && c.curthread.curspl == IPL_HIGH && !c.irqOn
      ensures doAdjust <==> old(c.curthread.curspl) == IPL_NONE
    {
      hide Charged, Machine.Threads, Machine.Cpus, Machine.Locks;
      Facts(c);
      var cur := c.curthread;
      c.irqOn := false;
      if cur.curspl == 0 {
        assert cur.iplhighCount == 0;
        cur.curspl := IPL_HIGH;
        cur.iplhighCount := cur.iplhighCount + 1;
        doAdjust := true;
      } else {
        doAdjust := false;
      }
      KeptThreads(cur);
      KeptCpus(c);
      KeptLocks();
    }

    /** And returns from it. Its assertions fail exactly if the handler has kept a spinlock or left the
        level low. */
    method InterruptOut(c: Cpu) returns (ok: bool)
      requires Valid() && c in cpus && c.curthread !in pending
      modifies c`irqOn, c.curthread`iplhighCount, c.curthread`curspl
      ensures ok <==> old(c.curthread.curspl) == IPL_HIGH && Charged(charge, c.curthread) == {}
      ensures ok ==> Valid() && c.curthread.curspl == IPL_NONE && c.irqOn
    {
      hide Charged, Machine.Threads, Machine.Cpus, Machine.Locks;
      Facts(c);
      var cur := c.curthread;
      ok := cur.curspl == IPL_HIGH && cur.iplhighCount == 1;
      if ok {
        cur.iplhighCount := cur.iplhighCount - 1;
        cur.curspl := 0;
        c.irqOn := true;
        KeptThreads(cur);
        KeptCpus(c);
        KeptLocks();
      }
    }
  }
}
