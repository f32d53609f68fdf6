/** Where threads are (thread/thread.c:197-205, 276-300, 310-347, 349-450, 491-593, 648-702).

    The scheduler is a state machine. One step is what a cpu or a waker does while it holds one
    spinlock; steps of different cpus interleave in any order. A loop under one lock is taken one
    turn at a time, which allows more interleavings than there are. */
module Scheduler {
  import opened Lib

  type Tid = nat
  type Cpu = nat

  /** The places a thread can be at. All but the first are lists. */
  datatype Place =
    | Running(cpu: Cpu)
    | Queue(cpu: Cpu)      // c_runqueue
    | Zombies(cpu: Cpu)    // c_zombies
    | Victims(cpu: Cpu)    // the list of thread_consider_migration on that cpu
    | Channel(wchan: nat)  // wc_threads
    | Hands(agent: nat)    // taken off a channel, or just created, and about to be made runnable

  /** For each cpu: the current thread, whether it is idle, whether it has found its run queue empty
      and waits for an interrupt, and whether it has been sent one. For each thread that exists: its
      cpu. The threads whose state is S_ZOMBIE. */
  datatype State = State(
    cur: seq<Tid>,
    idle: seq<bool>,
    asleep: seq<bool>,
    ipi: seq<bool>,
    lists: map<Place, seq<Tid>>,
    cpuOf: map<Tid, Cpu>,
    zombie: set<Tid>)

  function At(s: State, p: Place): seq<Tid> {
    if p in s.lists then s.lists[p] else []
  }

  ghost predicate Shape(s: State) {
    && |s.idle| == |s.cur| && |s.asleep| == |s.cur| && |s.ipi| == |s.cur|
    && (forall t :: t in s.cpuOf ==> s.cpuOf[t] < |s.cur|)
    && forall p :: p in s.lists ==> !p.Running?
  }

  // ---------------------------------------------------------------- the steps

  function Tail(q: seq<Tid>): seq<Tid> {
    if q == [] then [] else q[1..]
  }

  function Front(q: seq<Tid>): seq<Tid> {
    if q == [] then [] else q[..|q| - 1]
  }

  function RemHead(s: State, p: Place): State {
    s.(lists := s.lists[p := Tail(At(s, p))])
  }

  function RemTail(s: State, p: Place): State {
    s.(lists := s.lists[p := Front(At(s, p))])
  }

  function AddTail(s: State, p: Place, t: Tid): State {
    s.(lists := s.lists[p := At(s, p) + [t]])
  }

  function AddHead(s: State, p: Place, t: Tid): State {
    s.(lists := s.lists[p := [t] + At(s, p)])
  }

  /** A thread is put on the run queue of a cpu, which is told if it is idle. */
  function Enqueue(s: State, d: Cpu, t: Tid): State
    requires d < |s.idle| && d < |s.ipi|
  {
    AddTail(s, Queue(d), t).(ipi := s.ipi[d := s.ipi[d] || s.idle[d]])
  }

  /** A cpu that is not in the middle of thread_consider_migration. */
  predicate NotMigrating(s: State, c: Cpu) {
    At(s, Victims(c)) == []
  }

  /** Cpu c runs a thread and can call thread_switch. */
  predicate CanSwitch(s: State, c: Cpu) {
    c < |s.cur| && c < |s.idle| && !s.idle[c] && NotMigrating(s, c)
  }

  /** Cpu c is in thread_switch's loop and looks at its run queue. */
  predicate InLoop(s: State, c: Cpu) {
    c < |s.cur| && c < |s.idle| && c < |s.asleep| && s.idle[c] && !s.asleep[c] && NotMigrating(s, c)
  }

  datatype Action =
    | Fork(c: Cpu, agent: nat, t: Tid)   // thread_fork, before thread_make_runnable
    | TakeSleeper(wchan: nat, agent: nat) // wchan_wakeone; a turn of wchan_wakeall
    | MakeRunnable(agent: nat)
    | Yield(c: Cpu)                      // thread_switch, up to setting c_isidle
    | Sleep(c: Cpu, wchan: nat)
    | Exit(c: Cpu)
    | PickNext(c: Cpu)                   // thread_switch finds a thread to run
    | Wait(c: Cpu)                       // or none
    | Interrupt(c: Cpu, delivered: bool)
    | Exorcise(c: Cpu)                   // a turn of exorcise
    | TakeVictim(c: Cpu)                 // a turn of the first loop of thread_consider_migration
    | PlaceVictim(c: Cpu, d: Cpu)        // of the second
    | ReturnVictim(c: Cpu)               // of the third

  ghost predicate Enabled(s: State, a: Action)
    requires Shape(s)
  {
    match a
    case Fork(c, _, t) => c < |s.cur| && !s.idle[c] && t !in s.cpuOf && s.cur[c] in s.cpuOf
    case TakeSleeper(w, _) => At(s, Channel(w)) != []
    case MakeRunnable(agent) => At(s, Hands(agent)) != [] && At(s, Hands(agent))[0] in s.cpuOf
    case Yield(c) => CanSwitch(s, c) && At(s, Queue(c)) != []
    case Sleep(c, _) => CanSwitch(s, c)
    case Exit(c) => CanSwitch(s, c)
    case PickNext(c) => InLoop(s, c) && At(s, Queue(c)) != []
    case Wait(c) => InLoop(s, c) && At(s, Queue(c)) == []
    case Interrupt(c, _) => c < |s.cur|
    case Exorcise(c) => CanSwitch(s, c) && At(s, Zombies(c)) != []
    case TakeVictim(c) => c < |s.cur| && !s.asleep[c] && At(s, Queue(c)) != []
    case PlaceVictim(c, d) => c < |s.cur| && d < |s.cur| && c != d && At(s, Victims(c)) != []
    case ReturnVictim(c) => c < |s.cur| && At(s, Victims(c)) != []
  }

  ghost function After(s: State, a: Action): State
    requires Shape(s) && Enabled(s, a)
  {
    match a
    case Fork(c, agent, t) => AddTail(s, Hands(agent), t).(cpuOf := s.cpuOf[t := s.cpuOf[s.cur[c]]])
    case TakeSleeper(w, agent) => AddTail(RemHead(s, Channel(w)), Hands(agent), At(s, Channel(w))[0])
    case MakeRunnable(agent) =>
      var t := At(s, Hands(agent))[0];
      Enqueue(RemHead(s, Hands(agent)), s.cpuOf[t], t)
    case Yield(c) => Enqueue(s, c, s.cur[c]).(idle := s.idle[c := true])
    case Sleep(c, w) => AddTail(s, Channel(w), s.cur[c]).(idle := s.idle[c := true])
    case Exit(c) => AddTail(s, Zombies(c), s.cur[c]).(idle := s.idle[c := true], zombie := s.zombie + {s.cur[c]})
    case PickNext(c) => RemHead(s, Queue(c)).(cur := s.cur[c := At(s, Queue(c))[0]], idle := s.idle[c := false])
    case Wait(c) => s.(asleep := s.asleep[c := true])
    case Interrupt(c, delivered) => s.(asleep := s.asleep[c := false], ipi := s.ipi[c := s.ipi[c] && !delivered])
    case Exorcise(c) =>
      var z := At(s, Zombies(c))[0];
      RemHead(s, Zombies(c)).(cpuOf := s.cpuOf - {z}, zombie := s.zombie - {z})
    case TakeVictim(c) => AddHead(RemTail(s, Queue(c)), Victims(c), At(s, Queue(c))[|At(s, Queue(c))| - 1])
    case PlaceVictim(c, d) =>
      var t := At(s, Victims(c))[0];
      if t == s.cur[c] then AddTail(RemHead(s, Victims(c)), Victims(c), t)
      else Enqueue(RemHead(s, Victims(c)), d, t).(cpuOf := s.cpuOf[t := d])
    case ReturnVictim(c) => AddTail(RemHead(s, Victims(c)), Queue(c), At(s, Victims(c))[0])
  }

  ghost predicate Step(s: State, s': State, a: Action) {
    Shape(s) && Enabled(s, a) && s' == After(s, a)
  }

  /** Every cpu runs a thread of its own (cpu_create). */
  ghost predicate Init(s: State) {
    && Shape(s) && s.lists == map[] && s.zombie == {}
    && (forall c :: 0 <= c < |s.cur| ==> !s.idle[c] && !s.asleep[c] && s.cur[c] in s.cpuOf && s.cpuOf[s.cur[c]] == c)
    && forall t :: t in s.cpuOf ==> s.cur[s.cpuOf[t]] == t
  }

  // ---------------------------------------------------------------- what every step keeps

  /** The map says where each existing thread is, and it is there, once, and nowhere else. */
  ghost predicate Placed(s: State, place: map<Tid, Place>)
    requires Shape(s)
  {
    place.Keys == s.cpuOf.Keys && Listed(s, place) && Run(s, place)
  }

  ghost predicate Listed(s: State, place: map<Tid, Place>) {
    && (forall p, t :: t in At(s, p) ==> t in place && place[t] == p)
    && (forall t :: t in place && !place[t].Running? ==> t in At(s, place[t]))
    && (forall p :: Distinct(At(s, p)))
  }

  ghost predicate Run(s: State, place: map<Tid, Place>)
    requires Shape(s)
  {
    && (forall t :: t in place && place[t].Running? ==> IsRunning(s, place[t].cpu, t))
    && (forall c :: 0 <= c < |s.cur| && !s.idle[c] ==> s.cur[c] in place && place[s.cur[c]] == Running(c))
  }

  ghost predicate IsRunning(s: State, c: Cpu, t: Tid)
    requires Shape(s)
  {
    c < |s.cur| && !s.idle[c] && s.cur[c] == t
  }

  predicate Homely(p: Place, c: Cpu) {
    p.Channel? || p.Hands? || p.cpu == c
  }

  /** Threads that run, are queued, wait to be destroyed or are about to be migrated belong to that
      cpu; and so does the current thread of a cpu even when the cpu is idle. */
  ghost predicate Homes(s: State, place: map<Tid, Place>)
    requires Shape(s)
  {
    && (forall t :: t in place && t in s.cpuOf ==> Homely(place[t], s.cpuOf[t]))
    && (forall c :: 0 <= c < |s.cur| ==> s.cur[c] in s.cpuOf && s.cpuOf[s.cur[c]] == c)
    && (forall t :: t in s.zombie <==> t in place && place[t].Zombies?)
  }

  /** A cpu that waits for an interrupt although its run queue is not empty has one coming. */
  ghost predicate Told(s: State)
    requires Shape(s)
  {
    && (forall c :: 0 <= c < |s.cur| && s.asleep[c] ==> s.idle[c] && NotMigrating(s, c))
    && (forall c :: 0 <= c < |s.cur| && s.asleep[c] && At(s, Queue(c)) != [] ==> s.ipi[c])
  }

  ghost predicate InvAt(s: State, place: map<Tid, Place>) {
    Shape(s) && Placed(s, place) && Homes(s, place) && Told(s)
  }

  ghost predicate Inv(s: State) {
    exists place :: InvAt(s, place)
  }

  lemma InitInv(s: State)
    requires Init(s)
    ensures Inv(s)
  {
    var place := map t | t in s.cpuOf :: Running(s.cpuOf[t]);
    assert InvAt(s, place);
  }

  /** A thread has gone from wherever it was to q. */
  ghost predicate Moved(s: State, s': State, t: Tid, q: Place) {
    && (forall r, x :: x in At(s', r) <==> if x == t then r == q && !q.Running? else x in At(s, r))
    && (forall r :: Distinct(At(s', r)))
  }

  lemma MovedListed(s: State, s': State, place: map<Tid, Place>, t: Tid, q: Place)
    requires Listed(s, place) && Moved(s, s', t, q)
    ensures Listed(s', place[t := q])
  {
    hide At, Distinct;
    var place' := place[t := q];
    forall x | x in place' && !place'[x].Running?
      ensures x in At(s', place'[x])
    {
      assert x != t ==> place'[x] == place[x];
    }
  }

  /** The run places stay right if a thread goes from list to list, */
  lemma RunSame(s: State, s': State, place: map<Tid, Place>, t: Tid, q: Place)
    requires Shape(s) && Shape(s') && Run(s, place) && s'.cur == s.cur && s'.idle == s.idle
    requires !q.Running? && (t in place ==> !place[t].Running?)
    ensures Run(s', place[t := q])
  {
  }

  /** stops running, */
  lemma RunLeft(s: State, s': State, place: map<Tid, Place>, c: Cpu, q: Place)
    requires Shape(s) && Shape(s') && Run(s, place) && c < |s.cur| && !s.idle[c]
    requires !q.Running? && s'.cur == s.cur && s'.idle == s.idle[c := true]
    ensures Run(s', place[s.cur[c] := q])
  {
  }

  /** or starts to run. */
  lemma RunEntered(s: State, s': State, place: map<Tid, Place>, c: Cpu, t: Tid)
    requires Shape(s) && Shape(s') && Run(s, place) && c < |s.cur| && s.idle[c] && t in place && !place[t].Running?
    requires s'.cur == s.cur[c := t] && s'.idle == s.idle[c := false]
    ensures Run(s', place[t := Running(c)])
  {
  }

  lemma TailWithout(q: seq<Tid>)
    requires Distinct(q) && q != []
    ensures Distinct(Tail(q)) && forall x :: x in Tail(q) <==> x in q && x != q[0]
  {
    assert q == [q[0]] + q[1..];
  }

  lemma FrontWithout(q: seq<Tid>)
    requires Distinct(q) && q != []
    ensures Distinct(Front(q)) && forall x :: x in Front(q) <==> x in q && x != q[|q| - 1]
  {
    assert q == q[..|q| - 1] + [q[|q| - 1]];
  }

  lemma AddedLast(q: seq<Tid>, t: Tid)
    requires Distinct(q) && t !in q
    ensures Distinct(q + [t]) && forall x :: x in q + [t] <==> x in q || x == t
  {
  }

  lemma AddedFirst(q: seq<Tid>, t: Tid)
    requires Distinct(q) && t !in q
    ensures Distinct([t] + q) && forall x :: x in [t] + q <==> x in q || x == t
  {
    var r := [t] + q;
    forall i, j | 0 <= i < j < |r|
      ensures r[i] != r[j]
    {
      assert r[j] == q[j - 1];
      assert i > 0 ==> r[i] == q[i - 1];
    }
  }

  /** A thread is on no list, and nothing else has changed. */
  ghost predicate Gone(s: State, s': State, t: Tid) {
    && (forall r, x :: x in At(s', r) <==> x in At(s, r) && x != t)
    && (forall r :: Distinct(At(s', r)))
  }

  lemma LeftOnly(s: State, s': State, place: map<Tid, Place>, p: Place, t: Tid)
    requires Listed(s, place) && t in At(s, p)
    requires Distinct(At(s', p)) && forall x :: x in At(s', p) <==> x in At(s, p) && x != t
    requires s'.lists == s.lists[p := At(s', p)]
    ensures Gone(s, s', t)
  {
    hide Distinct;
    forall r
      ensures r != p ==> At(s', r) == At(s, r) && t !in At(s, r)
    {
      assert t in At(s, r) ==> place[t] == r;
    }
  }

  lemma GoneHead(s: State, place: map<Tid, Place>, p: Place)
    requires Listed(s, place) && At(s, p) != []
    ensures Gone(s, RemHead(s, p), At(s, p)[0])
  {
    TailWithout(At(s, p));
    LeftOnly(s, RemHead(s, p), place, p, At(s, p)[0]);
  }

  lemma GoneTail(s: State, place: map<Tid, Place>, p: Place)
    requires Listed(s, place) && At(s, p) != []
    ensures Gone(s, RemTail(s, p), At(s, p)[|At(s, p)| - 1])
  {
    FrontWithout(At(s, p));
    LeftOnly(s, RemTail(s, p), place, p, At(s, p)[|At(s, p)| - 1]);
  }

  lemma NotListedGone(s: State, place: map<Tid, Place>, t: Tid)
    requires Listed(s, place) && (t in place ==> place[t].Running?)
    requires forall p :: p in s.lists ==> !p.Running?
    ensures Gone(s, s, t)
  {
  }

  lemma PutTail(s: State, mid: State, s': State, t: Tid, q: Place)
    requires Gone(s, mid, t) && !q.Running? && s'.lists == AddTail(mid, q, t).lists
    ensures Moved(s, s', t, q)
  {
    AddedLast(At(mid, q), t);
    forall r
      ensures At(s', r) == if r == q then At(mid, q) + [t] else At(mid, r)
    {
    }
  }

  lemma PutHead(s: State, mid: State, s': State, t: Tid, q: Place)
    requires Gone(s, mid, t) && !q.Running? && s'.lists == AddHead(mid, q, t).lists
    ensures Moved(s, s', t, q)
  {
    AddedFirst(At(mid, q), t);
    forall r
      ensures At(s', r) == if r == q then [t] + At(mid, q) else At(mid, r)
    {
    }
  }

  lemma GoneMoved(s: State, s': State, t: Tid, c: Cpu)
    requires Gone(s, s', t)
    ensures Moved(s, s', t, Running(c))
  {
  }

  // ---------------------------------------------------------------- step by step

  /** A thread goes from the head of one list to the tail of another, without changing cpu. */
  lemma PassOn(s: State, s': State, place: map<Tid, Place>, p: Place, q: Place)
    requires InvAt(s, place) && At(s, p) != []
    requires s'.(lists := s.lists, ipi := s.ipi) == s && Shape(s') && Told(s')
    requires s'.lists == AddTail(RemHead(s, p), q, At(s, p)[0]).lists
    requires !p.Running? && !q.Running? && !p.Zombies? && !q.Zombies?
    requires At(s, p)[0] in s.cpuOf ==> Homely(q, s.cpuOf[At(s, p)[0]])
    ensures InvAt(s', place[At(s, p)[0] := q])
  {
    hide Told, Listed, Run, Gone, Moved, AddTail;
    var t := At(s, p)[0];
    assert t in place && place[t] == p by {
      FirstIsThere(s, place, p);
    }
    GoneHead(s, place, p);
    PutTail(s, RemHead(s, p), s', t, q);
    MovedListed(s, s', place, t, q);
    RunSame(s, s', place, t, q);
  }

  lemma FirstIsThere(s: State, place: map<Tid, Place>, p: Place)
    requires Listed(s, place) && At(s, p) != []
    ensures At(s, p)[0] in place && place[At(s, p)[0]] == p
  {
    assert At(s, p)[0] in At(s, p);
  }

  lemma ForkKeeps(s: State, place: map<Tid, Place>, a: Action)
    requires InvAt(s, place) && a.Fork? && Enabled(s, a)
    ensures Inv(After(s, a))
  {
    hide Listed, Run, Gone, Moved;
    var s', place' := After(s, a), place[a.t := Hands(a.agent)];
    NotListedGone(s, place, a.t);
    PutTail(s, s, s', a.t, Hands(a.agent));
    MovedListed(s, s', place, a.t, Hands(a.agent));
    RunSame(s, s', place, a.t, Hands(a.agent));
    assert InvAt(s', place');
  }

  lemma TakeSleeperKeeps(s: State, place: map<Tid, Place>, a: Action)
    requires InvAt(s, place) && a.TakeSleeper? && Enabled(s, a)
    ensures Inv(After(s, a))
  {
    hide Placed, Homes;
    var s' := After(s, a);
    PassOn(s, s', place, Channel(a.wchan), Hands(a.agent));
  }

  lemma MakeRunnableKeeps(s: State, place: map<Tid, Place>, a: Action)
    requires InvAt(s, place) && a.MakeRunnable? && Enabled(s, a)
    ensures Inv(After(s, a))
  {
    hide Placed, Homes;
    var s', t := After(s, a), At(s, Hands(a.agent))[0];
    PassOn(s, s', place, Hands(a.agent), Queue(s.cpuOf[t]));
  }

  /** A victim still belongs to the cpu it was taken from. */
  lemma VictimHome(s: State, place: map<Tid, Place>, c: Cpu)
    requires InvAt(s, place) && At(s, Victims(c)) != []
    ensures At(s, Victims(c))[0] in s.cpuOf && s.cpuOf[At(s, Victims(c))[0]] == c
  {
    FirstIsThere(s, place, Victims(c));
  }

  lemma ReturnVictimKeeps(s: State, place: map<Tid, Place>, a: Action)
    requires InvAt(s, place) && a.ReturnVictim? && Enabled(s, a)
    ensures Inv(After(s, a))
  {
    hide Placed, Homes;
    VictimHome(s, place, a.c);
    var s' := After(s, a);
    PassOn(s, s', place, Victims(a.c), Queue(a.c));
  }

  lemma TakeVictimKeeps(s: State, place: map<Tid, Place>, a: Action)
    requires InvAt(s, place) && a.TakeVictim? && Enabled(s, a)
    ensures Inv(After(s, a))
  {
    hide Listed, Run, Gone, Moved;
    var s', q := After(s, a), At(s, Queue(a.c));
    var t := q[|q| - 1];
    assert t in place && place[t] == Queue(a.c) by {
      InPlace(s, place, Queue(a.c), t);
    }
    GoneTail(s, place, Queue(a.c));
    PutHead(s, RemTail(s, Queue(a.c)), s', t, Victims(a.c));
    MovedListed(s, s', place, t, Victims(a.c));
    RunSame(s, s', place, t, Victims(a.c));
    assert InvAt(s', place[t := Victims(a.c)]);
  }

  lemma InPlace(s: State, place: map<Tid, Place>, p: Place, t: Tid)
    requires Listed(s, place) && t in At(s, p)
    ensures t in place && place[t] == p
  {
  }

  lemma PlaceVictimKeeps(s: State, place: map<Tid, Place>, a: Action)
    requires InvAt(s, place) && a.PlaceVictim? && Enabled(s, a)
    ensures Inv(After(s, a))
  {
    hide Placed, Homes, Moved, Gone;
    VictimHome(s, place, a.c);
    var s', t := After(s, a), At(s, Victims(a.c))[0];
    if t == s.cur[a.c] {
      PassOn(s, s', place, Victims(a.c), Victims(a.c));
    } else {
      SentKeeps(s, place, a);
    }
  }

  /** A thread that no cpu has as its current thread changes cpu. */
  lemma SentKeeps(s: State, place: map<Tid, Place>, a: Action)
    requires InvAt(s, place) && a.PlaceVictim? && Enabled(s, a) && At(s, Victims(a.c))[0] != s.cur[a.c]
    ensures Inv(After(s, a))
  {
    hide Listed, Run, Gone, Moved;
    var s', p, q, t := After(s, a), Victims(a.c), Queue(a.d), At(s, Victims(a.c))[0];
    VictimHome(s, place, a.c);
    assert t in place && place[t] == p by {
      FirstIsThere(s, place, p);
    }
    GoneHead(s, place, p);
    PutTail(s, RemHead(s, p), s', t, q);
    MovedListed(s, s', place, t, q);
    RunSame(s, s', place, t, q);
    assert InvAt(s', place[t := q]);
  }

  /** The current thread of a cpu goes onto a list, and the cpu is idle. */
  lemma SwitchedOutKeeps(s: State, s': State, place: map<Tid, Place>, c: Cpu, q: Place)
    requires InvAt(s, place) && CanSwitch(s, c) && !q.Running? && Homely(q, c)
    requires s'.(lists := s.lists, idle := s.idle, ipi := s.ipi, zombie := s.zombie) == s && Shape(s') && Told(s')
    requires s'.idle == s.idle[c := true] && s'.lists == AddTail(s, q, s.cur[c]).lists
    requires s'.zombie == if q.Zombies? then s.zombie + {s.cur[c]} else s.zombie
    ensures InvAt(s', place[s.cur[c] := q])
  {
    hide Told, Listed, Gone, Moved, AddTail;
    var t := s.cur[c];
    NotListedGone(s, place, t);
    PutTail(s, s, s', t, q);
    MovedListed(s, s', place, t, q);
    RunLeft(s, s', place, c, q);
  }

  lemma SwitchOutKeeps(s: State, place: map<Tid, Place>, a: Action)
    requires InvAt(s, place) && (a.Yield? || a.Sleep? || a.Exit?) && Enabled(s, a)
    ensures Inv(After(s, a))
  {
    hide Placed, Homes;
    var s' := After(s, a);
    var q := if a.Yield? then Queue(a.c) else if a.Sleep? then Channel(a.wchan) else Zombies(a.c);
    SwitchedOutKeeps(s, s', place, a.c, q);
  }

  lemma PickNextKeeps(s: State, place: map<Tid, Place>, a: Action)
    requires InvAt(s, place) && a.PickNext? && Enabled(s, a)
    ensures Inv(After(s, a))
  {
    hide Listed, Run, Gone, Moved;
    var s', t := After(s, a), At(s, Queue(a.c))[0];
    assert t in place && place[t] == Queue(a.c) by {
      FirstIsThere(s, place, Queue(a.c));
    }
    GoneHead(s, place, Queue(a.c));
    GoneMoved(s, s', t, a.c) by {
      GoneSame(s, RemHead(s, Queue(a.c)), s', t);
    }
    MovedListed(s, s', place, t, Running(a.c));
    RunEntered(s, s', place, a.c, t);
    assert InvAt(s', place[t := Running(a.c)]);
  }

  lemma GoneSame(s: State, mid: State, s': State, t: Tid)
    requires Gone(s, mid, t) && s'.lists == mid.lists
    ensures Gone(s, s', t)
  {
    assert forall r :: At(s', r) == At(mid, r);
  }

  lemma SameLists(s: State, s': State, place: map<Tid, Place>)
    requires Listed(s, place) && s'.lists == s.lists
    ensures Listed(s', place)
  {
    forall r
      ensures At(s', r) == At(s, r)
    {
    }
  }

  lemma SamePlaces(s: State, s': State, place: map<Tid, Place>)
    requires InvAt(s, place) && s'.(asleep := s.asleep, ipi := s.ipi) == s && Shape(s') && Told(s')
    ensures InvAt(s', place)
  {
    hide Listed, Told;
    SameLists(s, s', place);
  }

  lemma QuietKeeps(s: State, place: map<Tid, Place>, a: Action)
    requires InvAt(s, place) && (a.Wait? || a.Interrupt?) && Enabled(s, a)
    ensures Inv(After(s, a))
  {
    hide Placed, Homes;
    SamePlaces(s, After(s, a), place);
  }

  /** A zombie whose turn it is to be destroyed is no cpu's current thread. */
  lemma ZombieIsNotCurrent(s: State, place: map<Tid, Place>, c: Cpu)
    requires InvAt(s, place) && CanSwitch(s, c) && At(s, Zombies(c)) != []
    ensures var z := At(s, Zombies(c))[0];
            && z in s.zombie && z in s.cpuOf && place[z] == Zombies(c)
            && forall d :: 0 <= d < |s.cur| ==> s.cur[d] != z
  {
    FirstIsThere(s, place, Zombies(c));
  }

  lemma ExorciseKeeps(s: State, place: map<Tid, Place>, a: Action)
    requires InvAt(s, place) && a.Exorcise? && Enabled(s, a)
    ensures Inv(After(s, a))
  {
    hide Gone, Listed;
    var s', z := After(s, a), At(s, Zombies(a.c))[0];
    ZombieIsNotCurrent(s, place, a.c);
    GoneHead(s, place, Zombies(a.c));
    GoneSame(s, RemHead(s, Zombies(a.c)), s', z);
    ForgottenListed(s, s', place, z);
    assert InvAt(s', place - {z});
  }

  lemma ForgottenListed(s: State, s': State, place: map<Tid, Place>, t: Tid)
    requires Listed(s, place) && Gone(s, s', t)
    ensures Listed(s', place - {t})
  {
    hide At, Distinct;
  }

  lemma StepKeeps(s: State, s': State, a: Action)
    requires Inv(s) && Step(s, s', a)
    ensures Inv(s')
  {
    hide InvAt, After, Enabled;
    var place :| InvAt(s, place);
    match a
    case Fork(_, _, _) => ForkKeeps(s, place, a);
    case TakeSleeper(_, _) => TakeSleeperKeeps(s, place, a);
    case MakeRunnable(_) => MakeRunnableKeeps(s, place, a);
    case Yield(_) => SwitchOutKeeps(s, place, a);
    case Sleep(_, _) => SwitchOutKeeps(s, place, a);
    case Exit(_) => SwitchOutKeeps(s, place, a);
    case PickNext(_) => PickNextKeeps(s, place, a);
    case Wait(_) => QuietKeeps(s, place, a);
    case Interrupt(_, _) => QuietKeeps(s, place, a);
    case Exorcise(_) => ExorciseKeeps(s, place, a);
    case TakeVictim(_) => TakeVictimKeeps(s, place, a);
    case PlaceVictim(_, _) => PlaceVictimKeeps(s, place, a);
    case ReturnVictim(_) => ReturnVictimKeeps(s, place, a);
  }

  ghost predicate Next(s: State, s': State) {
    exists a :: Step(s, s', a)
  }

  /** What any number of cpus and wakers can do. */
  ghost predicate IsRun(run: seq<State>) {
    && run != [] && Init(run[0])
    && forall i :: 0 <= i < |run| - 1 ==> Next(run[i], run[i + 1])
  }

  lemma {:induction false} RunKeeps(run: seq<State>, i: nat)
    requires IsRun(run) && i < |run|
    ensures Inv(run[i])
  {
    hide Inv, Step, Init;
    if i == 0 {
      InitInv(run[0]);
    } else {
      RunKeeps(run, i - 1);
      assert Next(run[i - 1], run[i - 1 + 1]);
      var a :| Step(run[i - 1], run[i], a);
      StepKeeps(run[i - 1], run[i], a);
    }
  }

  // ---------------------------------------------------------------- what it means

  ghost predicate IsAt(s: State, p: Place, t: Tid)
    requires Shape(s)
  {
    if p.Running? then IsRunning(s, p.cpu, t) else t in At(s, p)
  }

  /** A thread that exists is in exactly one place, and there once. */
  lemma ExactlyOnePlace(s: State, t: Tid)
    requires Inv(s)
    ensures Shape(s)
    ensures t in s.cpuOf <==> exists p :: IsAt(s, p, t)
    ensures forall p, q :: IsAt(s, p, t) && IsAt(s, q, t) ==> p == q
    ensures forall p :: Distinct(At(s, p))
  {
    hide Homes, Told, At, Distinct;
    var place :| InvAt(s, place);
    if t in s.cpuOf {
      assert IsAt(s, place[t], t);
    }
    forall p | IsAt(s, p, t)
      ensures t in place && place[t] == p
    {
    }
  }

  /** Where a thread runs or is queued is what t_cpu says, and thread_switch's assertion about its
      caller holds. */
  lemma QueuedWhereItBelongs(s: State, c: Cpu, t: Tid)
    requires Inv(s)
    ensures Shape(s)
    ensures IsAt(s, Queue(c), t) || IsAt(s, Running(c), t) ==> t in s.cpuOf && s.cpuOf[t] == c
    ensures c < |s.cur| ==> s.cur[c] in s.cpuOf && s.cpuOf[s.cur[c]] == c
  {
    hide Placed, Homes, IsAt;
    var place :| InvAt(s, place);
    CurrentBelongs(s, place, c);
    PlaceBelongs(s, place, c, t);
  }

  lemma CurrentBelongs(s: State, place: map<Tid, Place>, c: Cpu)
    requires Shape(s) && Homes(s, place)
    ensures c < |s.cur| ==> s.cur[c] in s.cpuOf && s.cpuOf[s.cur[c]] == c
  {
  }

  lemma PlaceBelongs(s: State, place: map<Tid, Place>, c: Cpu, t: Tid)
    requires Shape(s) && Placed(s, place) && Homes(s, place)
    ensures IsAt(s, Queue(c), t) || IsAt(s, Running(c), t) ==> t in s.cpuOf && s.cpuOf[t] == c
  {
    hide At, Distinct, IsRunning;
    if IsAt(s, Queue(c), t) {
      InPlace(s, place, Queue(c), t);
      assert Homely(Queue(c), s.cpuOf[t]);
    } else if IsAt(s, Running(c), t) {
      CurrentBelongs(s, place, c);
      assert IsRunning(s, c, t) ==> c < |s.cur| && s.cur[c] == t by {
        RunningIs(s, c, t);
      }
    }
  }

  lemma RunningIs(s: State, c: Cpu, t: Tid)
    requires Shape(s) && IsRunning(s, c, t)
    ensures c < |s.cur| && s.cur[c] == t
  {
  }

  /** No two cpus have the same current thread, not even idle ones, which still use its stack. */
  lemma OneStackPerCpu(s: State, c: Cpu, d: Cpu)
    requires Inv(s) && c < d < |s.cur|
    ensures s.cur[c] != s.cur[d]
  {
    QueuedWhereItBelongs(s, c, s.cur[c]);
    QueuedWhereItBelongs(s, d, s.cur[d]);
  }

  /** What exorcise destroys is a zombie, is no cpu's current thread, and is on no other list;
      afterwards it is nowhere. */
  lemma ExorciseIsSafe(s: State, s': State, c: Cpu)
    requires Inv(s) && Step(s, s', Exorcise(c))
    ensures var z := At(s, Zombies(c))[0];
            && z in s.zombie && z !in s'.cpuOf && s'.cpuOf.Keys == s.cpuOf.Keys - {z}
            && (forall d :: 0 <= d < |s.cur| ==> s.cur[d] != z)
            && (forall p :: IsAt(s, p, z) ==> p == Zombies(c))
            && forall p :: Shape(s') && !IsAt(s', p, z)
  {
    hide Inv, InvAt, Placed, IsAt;
    var z := At(s, Zombies(c))[0];
    ZombieFacts(s, c);
    StepKeeps(s, s', Exorcise(c));
    ExactlyOnePlace(s, z);
    ExactlyOnePlace(s', z);
    assert IsAt(s, Zombies(c), z) by {
      FirstIsAt(s, c);
    }
  }

  lemma FirstIsAt(s: State, c: Cpu)
    requires Shape(s) && At(s, Zombies(c)) != []
    ensures IsAt(s, Zombies(c), At(s, Zombies(c))[0])
  {
  }

  lemma ZombieFacts(s: State, c: Cpu)
    requires Inv(s) && CanSwitch(s, c) && At(s, Zombies(c)) != []
    ensures var z := At(s, Zombies(c))[0];
            z in s.zombie && z in s.cpuOf && forall d :: 0 <= d < |s.cur| ==> s.cur[d] != z
  {
    var place :| InvAt(s, place);
    ZombieIsNotCurrent(s, place, c);
  }

  /** A cpu that waits with a thread on its run queue has an interrupt coming, so it will look again. */
  lemma NoForgottenQueue(s: State, c: Cpu)
    requires Inv(s) && c < |s.cur|
    ensures Shape(s) && (s.asleep[c] && At(s, Queue(c)) != [] ==> s.ipi[c])
  {
    hide Placed, Homes;
    var place :| InvAt(s, place);
  }
}
