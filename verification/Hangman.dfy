/** The deadlock detector (thread/hangman.c).

    Actors wait for at most one lockable, and lockables are held by at most one actor, so the
    waits-for graph has at most one edge out of each actor: from an actor to the holder of what
    it waits for. */
module Hangman {

  /** Something that locks: a thread, or a cpu. */
  class Actor {
    var waiting: Lockable?

    constructor ()
      ensures waiting == null
    {
      waiting := null;
    }
  }

  /** Something that can be locked. */
  class Lockable {
    var holding: Actor?

    constructor ()
      ensures holding == null
    {
      holding := null;
    }
  }

  // ---------------------------------------------------------------- the waits-for graph

  datatype Graph = Graph(waiting: map<Actor, Lockable>, holding: map<Lockable, Actor>)

  predicate Blocked(g: Graph, a: Actor) {
    a in g.waiting && g.waiting[a] in g.holding
  }

  /** The actor that a blocked actor waits for. */
  function Next(g: Graph, a: Actor): Actor
    requires Blocked(g, a)
  {
    g.holding[g.waiting[a]]
  }

  /** There is a walk of n edges from a to b. */
  predicate Walk(g: Graph, a: Actor, b: Actor, n: nat) {
    if n == 0 then a == b else Blocked(g, a) && Walk(g, Next(g, a), b, n - 1)
  }

  /** What a deadlock is: somebody waits, through others, for himself. */
  ghost predicate HasCycle(g: Graph) {
    exists a, n: nat :: a in g.waiting && n > 0 && Walk(g, a, a, n)
  }

  /** A rank that falls along every edge, which is how the absence of cycles is kept track of. */
  ghost predicate Ranked(g: Graph, rank: map<Actor, nat>) {
    forall a :: a in rank && Blocked(g, a) ==> Next(g, a) in rank && rank[Next(g, a)] < rank[a]
  }

  lemma {:induction false} WalkDescends(g: Graph, rank: map<Actor, nat>, a: Actor, b: Actor, n: nat)
    requires Ranked(g, rank) && a in rank && Walk(g, a, b, n)
    ensures b in rank && rank[b] + n <= rank[a]
  {
    if n > 0 {
      WalkDescends(g, rank, Next(g, a), b, n - 1);
    }
  }

  lemma RankedHasNoCycle(g: Graph, rank: map<Actor, nat>)
    requires Ranked(g, rank) && g.waiting.Keys <= rank.Keys
    ensures !HasCycle(g)
  {
    forall a, n: nat | a in g.waiting && n > 0
      ensures !Walk(g, a, a, n)
    {
      if Walk(g, a, a, n) {
        WalkDescends(g, rank, a, a, n);
        assert false;
      }
    }
  }

  /** Whether some walk leads from a to b. In a ranked graph this can be computed. */
  predicate Reaches(g: Graph, rank: map<Actor, nat>, a: Actor, b: Actor)
    requires Ranked(g, rank) && a in rank
    decreases rank[a]
  {
    a == b || (Blocked(g, a) && Reaches(g, rank, Next(g, a), b))
  }

  lemma {:induction false} ReachesByWalk(g: Graph, rank: map<Actor, nat>, a: Actor, b: Actor) returns (n: nat)
    requires Ranked(g, rank) && a in rank && Reaches(g, rank, a, b)
    ensures Walk(g, a, b, n)
    decreases rank[a]
  {
    if a == b {
      n := 0;
    } else {
      n := ReachesByWalk(g, rank, Next(g, a), b);
      n := n + 1;
    }
  }

  lemma {:induction false} WalkReaches(g: Graph, rank: map<Actor, nat>, a: Actor, b: Actor, n: nat)
    requires Ranked(g, rank) && a in rank && Walk(g, a, b, n)
    ensures Reaches(g, rank, a, b)
  {
    if n > 0 {
      WalkReaches(g, rank, Next(g, a), b, n - 1);
    }
  }

  /** Some walk leads from a to b. */
  ghost predicate Leads(g: Graph, a: Actor, b: Actor) {
    exists n: nat :: Walk(g, a, b, n)
  }

  /** The computation finds a walk of any length. */
  lemma ReachesIsWalk(g: Graph, rank: map<Actor, nat>, a: Actor, b: Actor)
    requires Ranked(g, rank) && a in rank
    ensures Reaches(g, rank, a, b) <==> Leads(g, a, b)
  {
    if Reaches(g, rank, a, b) {
      var n := ReachesByWalk(g, rank, a, b);
    } else if Leads(g, a, b) {
      var n: nat :| Walk(g, a, b, n);
      WalkReaches(g, rank, a, b, n);
    }
  }

  function WithWaiting(g: Graph, a: Actor, l: Lockable): Graph {
    g.(waiting := g.waiting[a := l])
  }

  /** A walk that does not pass through a is not affected by what a waits for. */
  lemma {:induction false} WalkAvoiding(g: Graph, rank: map<Actor, nat>, h: Actor, a: Actor, l: Lockable, n: nat)
    requires Ranked(g, rank) && h in rank && a !in g.waiting && Walk(g, h, a, n)
    ensures Walk(WithWaiting(g, a, l), h, a, n)
  {
    if n > 0 {
      assert h != a;
      WalkAvoiding(g, rank, Next(g, h), a, l, n - 1);
    }
  }

  /** If the holder of l already waits for a, then a waiting for l closes a cycle. */
  lemma ClosesCycle(g: Graph, rank: map<Actor, nat>, a: Actor, l: Lockable)
    requires Ranked(g, rank) && a !in g.waiting
    requires l in g.holding && g.holding[l] in rank && Leads(g, g.holding[l], a)
    ensures HasCycle(WithWaiting(g, a, l))
  {
    var h := g.holding[l];
    var n: nat :| Walk(g, h, a, n);
    WalkAvoiding(g, rank, h, a, l, n);
    assert Walk(WithWaiting(g, a, l), a, a, n + 1);
  }

  ghost function Highest(rank: map<Actor, nat>): (m: nat)
    ensures forall a :: a in rank ==> rank[a] <= m
  {
    if rank == map[] then 0
    else
      var a :| a in rank;
      var m := Highest(rank - {a});
      assert forall b :: b in rank ==> b == a || b in rank - {a};
      if rank[a] > m then rank[a] else m
  }

  /** Otherwise the actors that wait for a, and a itself, can be ranked above all others. */
  ghost function RankWaiting(g: Graph, rank: map<Actor, nat>, a: Actor): (r: map<Actor, nat>)
    requires Ranked(g, rank)
    ensures r.Keys == rank.Keys
  {
    map x | x in rank :: rank[x] + if Reaches(g, rank, x, a) then Highest(rank) + 1 else 0
  }

  lemma KeepsRanked(g: Graph, rank: map<Actor, nat>, a: Actor, l: Lockable)
    requires Ranked(g, rank) && a !in g.waiting
    requires l in g.holding ==> g.holding[l] in rank && !Leads(g, g.holding[l], a)
    ensures Ranked(WithWaiting(g, a, l), RankWaiting(g, rank, a))
  {
    if l in g.holding {
      ReachesIsWalk(g, rank, g.holding[l], a);
    }
    var g', rank' := WithWaiting(g, a, l), RankWaiting(g, rank, a);
    forall x | x in rank' && Blocked(g', x)
      ensures Next(g', x) in rank' && rank'[Next(g', x)] < rank'[x]
    {
      if x != a {
        assert Blocked(g, x);
      }
    }
  }

  /** Acquiring: the new holder waits for nobody, so it can be ranked below everybody. */
  ghost function RankHolding(rank: map<Actor, nat>, a: Actor): (r: map<Actor, nat>)
    ensures r.Keys == rank.Keys
  {
    map x | x in rank :: if x == a then 0 else rank[x] + 1
  }

  lemma KeepsRankedHolding(g: Graph, rank: map<Actor, nat>, a: Actor, l: Lockable)
    requires Ranked(g, rank) && a in rank
    ensures Ranked(Graph(g.waiting - {a}, g.holding[l := a]), RankHolding(rank, a))
  {
    var g' := Graph(g.waiting - {a}, g.holding[l := a]);
    forall x | x in rank && Blocked(g', x)
      ensures Next(g', x) in rank && (Next(g', x) == a || (Blocked(g, x) && Next(g, x) == Next(g', x)))
    {
    }
  }

  lemma KeepsRankedReleasing(g: Graph, rank: map<Actor, nat>, l: Lockable)
    requires Ranked(g, rank)
    ensures Ranked(g.(holding := g.holding - {l}), rank)
  {
    forall x | x in rank && Blocked(g.(holding := g.holding - {l}), x)
      ensures Blocked(g, x)
    {
    }
  }

  // ---------------------------------------------------------------- the detector

  /** What an operation comes to; all but the first are panics. */
  datatype Outcome = Done | Deadlock | AlreadyWaiting | NotWaiting | StillHeld | NotTheHolder

  class Detector {
    /** The lockable of the detector's own lock, which is not tracked. */
    const own: Lockable
    ghost var actors: set<Actor>
    ghost var lockables: set<Lockable>
    ghost var rank: map<Actor, nat>

    constructor (own: Lockable, ghost actors: set<Actor>, ghost lockables: set<Lockable>)
      requires forall a :: a in actors ==> a.waiting == null
      requires forall l :: l in lockables ==> l.holding == null
      ensures this.own == own && this.actors == actors && this.lockables == lockables && Valid()
    {
      this.own, this.actors, this.lockables := own, actors, lockables;
      rank := map a | a in actors :: 0;
    }

    ghost function Waits(): Graph
      reads this`actors, this`lockables, actors, lockables
    {
      Graph(map a | a in actors && a.waiting != null :: a.waiting, map l | l in lockables && l.holding != null :: l.holding)
    }

    /** The fields point among the actors and lockables tracked. */
    ghost predicate Closed()
      reads this`actors, this`lockables, actors, lockables
    {
      && (forall a :: a in actors && a.waiting != null ==> a.waiting in lockables)
      && (forall l :: l in lockables && l.holding != null ==> l.holding in actors)
    }

    ghost predicate Valid()
      reads this, actors, lockables
    {
      Closed() && rank.Keys == actors && Ranked(Waits(), rank)
    }

    lemma WaitersTracked()
      ensures Waits().waiting.Keys <= actors
    {
    }

    /** In every reachable state nobody is deadlocked. */
    lemma NoDeadlock()
      requires Valid()
      ensures !HasCycle(Waits())
    {
      RankedHasNoCycle(Waits(), rank);
    }

    /** Follows the graph from the holder of start, looking for target. The graph has no cycles
        yet, so the walk ends. */
    method Check(start: Lockable, target: Actor) returns (found: bool)
      requires Valid() && start in lockables && target in actors
      ensures found <==> start.holding != null && Leads(Waits(), start.holding, target)
    {
      found := false;
      var cur := start.holding;
      if cur != null {
        ReachesIsWalk(Waits(), rank, cur, target);
      }
      while cur != null
        invariant cur != null ==> cur in actors
        invariant (start.holding != null && Reaches(Waits(), rank, start.holding, target))
             <==> (cur != null && Reaches(Waits(), rank, cur, target))
        decreases if cur == null then 0 else rank[cur] + 1
      {
        if cur == target {
          return true;
        }
        if cur.waiting == null {
          break;
        }
        cur := cur.waiting.holding;
      }
    }

    method SetWaiting(a: Actor, l: Lockable?)
      requires Closed() && a in actors && (l == null || l in lockables)
      modifies a
      ensures Closed() && a.waiting == l
      ensures Waits() == if l == null then Graph(old(Waits()).waiting - {a}, old(Waits()).holding)
                         else WithWaiting(old(Waits()), a, l)
    {
      ghost var g := Waits();
      a.waiting := l;
      assert Waits().holding == g.holding;
      assert Waits().waiting == if l == null then g.waiting - {a} else g.waiting[a := l];
    }

    method SetHolding(l: Lockable, a: Actor?)
      requires Closed() && l in lockables && (a == null || a in actors)
      modifies l
      ensures Closed() && l.holding == a
      ensures Waits() == old(Waits()).(holding := if a == null then old(Waits()).holding - {l} else old(Waits()).holding[l := a])
    {
      ghost var g := Waits();
      l.holding := a;
      assert Waits().waiting == g.waiting;
      assert Waits().holding == if a == null then g.holding - {l} else g.holding[l := a];
    }

    /** A field and the graph say the same. */
    lemma Edges(a: Actor, l: Lockable)
      requires Closed() && a in actors && l in lockables
      ensures a.waiting != null <==> a in Waits().waiting
      ensures l.holding != null <==> l in Waits().holding
      ensures l.holding != null ==> Waits().holding[l] == l.holding && l.holding in actors
    {
    }

    /** Records that a is about to wait for l. A deadlock is reported exactly when that would
        close a cycle in the graph. */
    method Wait(a: Actor, l: Lockable) returns (r: Outcome)
      requires Valid() && a in actors && l in lockables
      modifies a, this`rank
      ensures Valid()
      ensures r == if l == own then Done
                   else if old(a.waiting) != null then AlreadyWaiting
                   else if HasCycle(WithWaiting(old(Waits()), a, l)) then Deadlock
                   else Done
      ensures Waits() == if l != own && r == Done then WithWaiting(old(Waits()), a, l) else old(Waits())
    {
      hide Closed, Waits, HasCycle, Ranked, RankWaiting, Leads, WithWaiting;
      if l == own {
        return Done;
      }
      if a.waiting != null {
        return AlreadyWaiting;
      }
      Edges(a, l);
      var found := Check(l, a);
      if found {
        ClosesCycle(Waits(), rank, a, l);
        return Deadlock;
      }
      ghost var g := Waits();
      KeepsRanked(g, rank, a, l);
      SetWaiting(a, l);
      rank := RankWaiting(g, rank, a);
      WaitersTracked();
      RankedHasNoCycle(Waits(), rank);
      r := Done;
    }

    /** Records that a, which was waiting for l, has got it. */
    method Acquire(a: Actor, l: Lockable) returns (r: Outcome)
      requires Valid() && a in actors && l in lockables
      modifies a, l, this`rank
      ensures Valid()
      ensures r == if l == own then Done
                   else if old(a.waiting) != l then NotWaiting
                   else if old(l.holding) != null then StillHeld
                   else Done
      ensures Waits() == if l != own && r == Done
                         then Graph(old(Waits()).waiting - {a}, old(Waits()).holding[l := a]) else old(Waits())
    {
      hide Closed, Waits, HasCycle, Ranked, RankHolding;
      if l == own {
        return Done;
      }
      if a.waiting != l {
        return NotWaiting;
      }
      if l.holding != null {
        return StillHeld;
      }
      ghost var g := Waits();
      SetHolding(l, a);
      SetWaiting(a, null);
      KeepsRankedHolding(g, rank, a, l);
      rank := RankHolding(rank, a);
      r := Done;
    }

    /** Records that a has let go of l. */
    method Release(a: Actor, l: Lockable) returns (r: Outcome)
      requires Valid() && a in actors && l in lockables
      modifies l
      ensures Valid()
      ensures r == if l == own then Done
                   else if old(a.waiting) != null then AlreadyWaiting
                   else if old(l.holding) != a then NotTheHolder
                   else Done
      ensures Waits() == if l != own && r == Done
                         then old(Waits()).(holding := old(Waits()).holding - {l}) else old(Waits())
    {
      hide Closed, Waits, Ranked;
      if l == own {
        return Done;
      }
      if a.waiting != null {
        return AlreadyWaiting;
      }
      if l.holding != a {
        return NotTheHolder;
      }
      KeepsRankedReleasing(Waits(), rank, l);
      SetHolding(l, null);
      r := Done;
    }
  }
}
