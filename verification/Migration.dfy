/** thread_consider_migration (thread/thread.c:490-593). */
module Migration {
  import opened Lib

  type Tid = nat

  /** All the threads on some queues. */
  ghost function Union(qs: seq<seq<Tid>>): multiset<Tid> {
    if qs == [] then multiset{} else multiset(qs[0]) + Union(qs[1..])
  }

  lemma {:induction false} UnionUpdate(qs: seq<seq<Tid>>, i: nat, q: seq<Tid>)
    requires i < |qs|
    ensures Union(qs[i := q]) + multiset(qs[i]) == Union(qs) + multiset(q)
  {
    if i > 0 {
      UnionUpdate(qs[1..], i - 1, q);
      assert qs[i := q][1..] == qs[1..][i - 1 := q];
      assert Union(qs[i := q]) == multiset(qs[0]) + Union(qs[1..][i - 1 := q]);
      Regroup(multiset(qs[0]), Union(qs[1..][i - 1 := q]), multiset(qs[i]));
      Regroup(multiset(qs[0]), Union(qs[1..]), multiset(q));
    } else {
      assert qs[i := q][1..] == qs[1..];
      Regroup(multiset(q), Union(qs[1..]), multiset(qs[0]));
      Regroup(multiset(qs[0]), Union(qs[1..]), multiset(q));
      assert Union(qs[1..]) + multiset(qs[0]) + multiset(q) == Union(qs[1..]) + multiset(q) + multiset(qs[0]);
    }
  }

  lemma Regroup(a: multiset<Tid>, b: multiset<Tid>, c: multiset<Tid>)
    ensures (a + b) + c == a + (b + c) == (b + c) + a == b + a + c
  {
  }

  lemma {:induction false} InUnion(qs: seq<seq<Tid>>, i: nat, t: Tid)
    requires i < |qs| && t in qs[i]
    ensures Union(qs)[t] >= multiset(qs[i])[t] > 0
  {
    if i > 0 {
      InUnion(qs[1..], i - 1, t);
    }
  }

  /** How many they are. */
  function Total(qs: seq<seq<Tid>>): nat {
    if qs == [] then 0 else |qs[0]| + Total(qs[1..])
  }

  lemma {:induction false} TotalUpdate(qs: seq<seq<Tid>>, i: nat, q: seq<Tid>)
    requires i < |qs|
    ensures Total(qs[i := q]) + |qs[i]| == Total(qs) + |q|
  {
    if i > 0 {
      TotalUpdate(qs[1..], i - 1, q);
      assert qs[i := q][1..] == qs[1..][i - 1 := q];
    } else {
      assert qs[i := q][1..] == qs[1..];
    }
  }

  lemma {:induction false} TotalNext(qs: seq<seq<Tid>>, i: nat)
    requires i < |qs|
    ensures Total(qs[..i + 1]) == Total(qs[..i]) + |qs[i]|
  {
    if i > 0 {
      TotalNext(qs[1..], i - 1);
      assert qs[..i + 1][1..] == qs[1..][..i] && qs[..i][1..] == qs[1..][..i - 1];
    }
  }

  lemma {:induction false} SameTotal(qs: seq<seq<Tid>>, rs: seq<seq<Tid>>)
    requires SameLengths(qs, rs)
    ensures Total(qs) == Total(rs)
  {
    if qs != [] {
      assert SameLengths(qs[1..], rs[1..]);
      SameTotal(qs[1..], rs[1..]);
    }
  }

  /** Queues of at least share threads each. */
  lemma {:induction false} AtLeast(qs: seq<seq<Tid>>, share: nat)
    requires forall i :: 0 <= i < |qs| ==> |qs[i]| >= share
    ensures Total(qs) >= |qs| * share
  {
    if qs != [] {
      assert forall i :: 0 <= i < |qs| - 1 ==> qs[1..][i] == qs[i + 1];
      AtLeast(qs[1..], share);
    }
  }

  ghost predicate SameLengths(qs: seq<seq<Tid>>, rs: seq<seq<Tid>>) {
    |rs| == |qs| && forall i :: 0 <= i < |qs| ==> |rs[i]| == |qs[i]|
  }

  /** The victims left after j of them have been dealt with: the current thread is moved to the end. */
  function Left(all: seq<Tid>, j: nat, cur: Tid): seq<Tid>
    requires j <= |all|
  {
    all[j..] + if cur in all[..j] then [cur] else []
  }

  lemma LeftNext(all: seq<Tid>, j: nat, cur: Tid)
    requires j < |all| && Distinct(all)
    ensures Left(all, j, cur) != [] && Left(all, j, cur)[0] == all[j]
    ensures Left(all, j + 1, cur) == Left(all, j, cur)[1..] + if all[j] == cur then [cur] else []
  {
    assert all[..j + 1] == all[..j] + [all[j]];
    assert all[j..] == [all[j]] + all[j + 1..];
  }

  ghost predicate Once(m: multiset<Tid>) {
    forall t :: m[t] <= 1
  }

  ghost predicate Homes(queue: seq<seq<Tid>>, cpuOf: map<Tid, nat>) {
    forall c :: 0 <= c < |queue| ==> Home(queue[c], cpuOf, c)
  }

  ghost predicate Home(q: seq<Tid>, cpuOf: map<Tid, nat>, c: nat) {
    forall t :: t in q ==> t in cpuOf && cpuOf[t] == c
  }

  lemma LastGone(queue: seq<seq<Tid>>, cpuOf: map<Tid, nat>, c: nat)
    requires Homes(queue, cpuOf) && c < |queue| && queue[c] != []
    ensures var q := queue[c];
            && Homes(queue[c := q[..|q| - 1]], cpuOf)
            && q[|q| - 1] in cpuOf && cpuOf[q[|q| - 1]] == c
  {
    assert Home(queue[c], cpuOf, c);
  }

  /** What a cpu relies on while it does not hold the lock of a run queue: the queues of some cpus, whose
      own schedulers are doing nothing, only grow, at the end; and threads that are in someone's hands
      and on no queue stay so, with the cpu they had. */
  datatype Claim = Claim(still: set<nat>, held: map<Tid, nat>)

  ghost predicate OnlyGrew(qs: seq<seq<Tid>>, rs: seq<seq<Tid>>, still: set<nat>) {
    |rs| == |qs| && forall c :: c in still && c < |qs| ==> qs[c] <= rs[c]
  }

  lemma GrewTwice(qs: seq<seq<Tid>>, rs: seq<seq<Tid>>, ts: seq<seq<Tid>>, still: set<nat>)
    requires OnlyGrew(qs, rs, still) && OnlyGrew(rs, ts, still)
    ensures OnlyGrew(qs, ts, still)
  {
    forall c | c in still && c < |qs|
      ensures qs[c] <= ts[c]
    {
      assert qs[c] <= rs[c] && rs[c] <= ts[c];
    }
  }

  /** A queue that grew, or one that is not claimed, changed. */
  lemma OneGrew(qs: seq<seq<Tid>>, rs: seq<seq<Tid>>, still: set<nat>, c: nat)
    requires c < |rs| && |qs| == |rs| && rs == qs[c := rs[c]] && (c in still ==> qs[c] <= rs[c])
    ensures OnlyGrew(qs, rs, still)
  {
  }

  class Kernel {
    const self: nat
    const curthread: Tid
    var queue: seq<seq<Tid>>
    var idle: seq<bool>
    var told: seq<bool>
    var cpuOf: map<Tid, nat>
    ghost var elsewhere: multiset<Tid>

    ghost function Everywhere(): multiset<Tid>
      reads this
    {
      Union(queue) + elsewhere
    }

    /** Queued threads belong to the cpu they are queued at, and no thread is anywhere twice. */
    ghost predicate Valid(victims: multiset<Tid>)
      reads this
    {
      && self < |queue| == |idle| == |told|
      && Homes(queue, cpuOf) && Once(Everywhere() + victims)
      && (forall t :: t in victims ==> t in cpuOf && cpuOf[t] == self)
    }

    /** Threads in someone's hands are elsewhere, and belong to the cpu they did. */
    ghost predicate Upheld(held: map<Tid, nat>)
      reads this`elsewhere, this`cpuOf
    {
      forall t :: t in held ==> t in elsewhere && t in cpuOf && cpuOf[t] == held[t]
    }

    /** What the other cpus do while no run queue lock is held here: what ConsiderMigration and the rest
        of the scheduler do to this cpu, namely add to its queue, and anything at all to the queues of
        cpus not claimed; they neither lose nor duplicate threads. When quiet, the queues keep their
        lengths, and no cpu becomes idle or stops being idle. */
    method OtherCpus(ghost victims: multiset<Tid>, ghost others: Claim, ghost quiet: bool)
      requires Valid(victims) && Upheld(others.held)
      modifies this
      ensures Valid(victims) && Everywhere() == old(Everywhere())
      ensures OnlyGrew(old(queue), queue, others.still + {self}) && Upheld(others.held)
      ensures quiet ==> SameLengths(old(queue), queue) && idle == old(idle) && told == old(told)
    {
    }

    lemma OwnGrew(qs: seq<seq<Tid>>, rs: seq<seq<Tid>>, still: set<nat>)
      requires OnlyGrew(qs, rs, still + {self}) && self < |qs|
      ensures OnlyGrew(qs, rs, still) && qs[self] <= rs[self] && |rs| == |qs|
    {
    }

    /** Counts the queues, one after the other. */
    method Count(ghost others: Claim, ghost quiet: bool) returns (mine: nat, total: nat)
      requires Valid(multiset{}) && Upheld(others.held)
      modifies this
      ensures Valid(multiset{}) && Everywhere() == old(Everywhere()) && |queue| == old(|queue|)
      ensures OnlyGrew(old(queue), queue, others.still) && Upheld(others.held)
      ensures old(queue)[self] <= queue[self] && mine <= |queue[self]|
      ensures quiet ==> SameLengths(old(queue), queue) && mine == |queue[self]| && total == Total(old(queue))
      ensures quiet ==> idle == old(idle) && told == old(told)
    {
      mine, total := 0, 0;
      for i := 0 to |queue|
        invariant Valid(multiset{}) && Everywhere() == old(Everywhere()) && |queue| == old(|queue|)
        invariant OnlyGrew(old(queue), queue, others.still) && Upheld(others.held)
        invariant old(queue)[self] <= queue[self] && mine <= |queue[self]|
        invariant quiet ==> SameLengths(old(queue), queue) && total == Total(old(queue)[..i])
        invariant quiet && i > self ==> mine == |queue[self]|
        invariant quiet ==> idle == old(idle) && told == old(told)
      {
        total := total + |queue[i]|;
        if i == self {
          mine := |queue[i]|;
        }
        TotalNext(old(queue), i);
        ghost var before := queue;
        OtherCpus(multiset{}, others, quiet);
        OwnGrew(before, queue, others.still);
        GrewTwice(old(queue), before, queue, others.still);
      }
      assert old(queue)[..|old(queue)|] == old(queue);
    }

    /** Takes threads off the end of this cpu's queue. */
    method TakeVictims(n: nat) returns (victims: seq<Tid>)
      requires Valid(multiset{}) && n <= |queue[self]|
      modifies this`queue
      ensures Valid(multiset(victims)) && Everywhere() + multiset(victims) == old(Everywhere())
      ensures old(queue)[self] == queue[self] + victims && |victims| == n && queue == old(queue)[self := queue[self]]
    {
      hide Once, Homes, Union, Kernel.Everywhere;
      ghost var q0 := queue;
      victims := [];
      for i := 0 to n
        invariant |queue| == |q0| && q0[self] == queue[self] + victims && |victims| == i
        invariant queue == q0[self := queue[self]]
        invariant Valid(multiset(victims)) && Everywhere() + multiset(victims) == old(Everywhere())
      {
        var t := TakeLast(victims);
        victims := [t] + victims;
      }
    }

    method TakeLast(ghost victims: seq<Tid>) returns (t: Tid)
      requires Valid(multiset(victims)) && queue[self] != []
      modifies this`queue
      ensures Valid(multiset([t] + victims)) && Everywhere() + multiset([t] + victims) == old(Everywhere()) + multiset(victims)
      ensures old(queue)[self] == queue[self] + [t] && queue == old(queue)[self := queue[self]]
    {
      hide Once, Homes, Union;
      t := queue[self][|queue[self]| - 1];
      OneTaken(t, victims);
      LastGone(queue, cpuOf, self);
      queue := queue[self := queue[self][..|queue[self]| - 1]];
    }

    lemma OneTaken(t: Tid, victims: seq<Tid>)
      requires self < |queue| && queue[self] != [] && t == queue[self][|queue[self]| - 1]
      ensures Union(queue[self := queue[self][..|queue[self]| - 1]]) + elsewhere + multiset([t] + victims)
           == Everywhere() + multiset(victims)
    {
      Shrunk(queue, self);
      assert multiset([t] + victims) == multiset{t} + multiset(victims);
    }

    /** Puts victims on the queue of another cpu until it has its share, or none are left to send. */
    method Fill(d: nat, victims: seq<Tid>, toSend: nat, share: nat, ghost all: seq<Tid>, ghost held: map<Tid, nat>)
      returns (rest: seq<Tid>, left: nat)
      requires Valid(multiset(victims)) && d < |queue| && d != self && Upheld(held)
      requires toSend <= |all| && victims == Left(all, |all| - toSend, curthread) && Distinct(all)
      modifies this`queue, this`told, this`cpuOf
      ensures Upheld(held)
      ensures Valid(multiset(rest)) && Everywhere() + multiset(rest) == old(Everywhere()) + multiset(victims)
      ensures left <= toSend && rest == Left(all, |all| - left, curthread)
      ensures left > 0 ==> |queue[d]| >= share
      ensures old(queue)[d] <= queue[d] && queue == old(queue)[d := queue[d]]
      ensures |queue[d]| <= share || |queue[d]| == |old(queue)[d]|
      ensures |queue[d]| + |rest| == |old(queue)[d]| + |victims|
      ensures told == old(told)[d := old(told)[d] || (idle[d] && |queue[d]| > |old(queue)[d]|)]
    {
      hide Once, Homes, Union, Left, Distinct, Kernel.Everywhere, Kernel.Valid, Kernel.Upheld;
      SelfIsCpu(multiset(victims));
      rest, left := victims, toSend;
      while |queue[d]| < share && left > 0
        invariant Upheld(held)
        invariant Valid(multiset(rest)) && Everywhere() + multiset(rest) == old(Everywhere()) + multiset(victims)
        invariant left <= toSend && rest == Left(all, |all| - left, curthread)
        invariant |queue| == |told| == |idle| == old(|queue|) && old(queue)[d] <= queue[d] && queue == old(queue)[d := queue[d]]
        invariant |queue[d]| <= share || |queue[d]| == |old(queue)[d]|
        invariant |queue[d]| + |rest| == |old(queue)[d]| + |victims|
        invariant told == old(told)[d := old(told)[d] || (idle[d] && |queue[d]| > |old(queue)[d]|)]
        decreases left
      {
        LeftNext(all, |all| - left, curthread);
        assert rest != [];
        var t := rest[0];
        if t == curthread {
          Rotated(rest);
          rest := rest[1..] + [t];
          left := left - 1;
        } else {
          SendFirst(d, rest, held);
          rest := rest[1..];
          left := left - 1;
        }
      }
    }

    /** The first victim goes to cpu d, which is told if it is idle. */
    method SendFirst(d: nat, victims: seq<Tid>, ghost held: map<Tid, nat>)
      requires Valid(multiset(victims)) && d < |queue| && victims != [] && Upheld(held)
      modifies this`queue, this`told, this`cpuOf
      ensures Upheld(held)
      ensures Valid(multiset(victims[1..])) && Everywhere() + multiset(victims[1..]) == old(Everywhere()) + multiset(victims)
      ensures queue == old(queue)[d := old(queue)[d] + [victims[0]]] && cpuOf == old(cpuOf)[victims[0] := d]
      ensures told == old(told)[d := old(told)[d] || idle[d]]
    {
      hide Once, Homes, Union;
      Sent(queue, cpuOf, elsewhere, victims, d);
      NotHeld(victims, held);
      var t := victims[0];
      assert victims == [t] + victims[1..];
      cpuOf := cpuOf[t := d];
      queue := queue[d := queue[d] + [t]];
      if idle[d] {
        told := told[d := true];
      }
    }

    /** A thread is in one cpu's hands only. */
    lemma NotHeld(victims: seq<Tid>, held: map<Tid, nat>)
      requires Valid(multiset(victims)) && victims != [] && Upheld(held)
      ensures victims[0] !in held
    {
      hide Homes, Union;
      var t := victims[0];
      assert multiset(victims)[t] > 0;
      assert (Everywhere() + multiset(victims))[t] == Union(queue)[t] + elsewhere[t] + multiset(victims)[t];
    }

    /** Sends victims to the other cpus in turn. */
    method SendAll(victims: seq<Tid>, share: nat, ghost others: Claim, ghost quiet: bool) returns (rest: seq<Tid>, left: nat)
      requires Valid(multiset(victims)) && Distinct(victims) && Upheld(others.held)
      modifies this
      ensures OnlyGrew(old(queue), queue, others.still) && Upheld(others.held)
      ensures Valid(multiset(rest)) && Everywhere() + multiset(rest) == old(Everywhere()) + multiset(victims)
      ensures |queue| == old(|queue|) && old(queue)[self] <= queue[self]
      ensures left <= |victims| && rest == Left(victims, |victims| - left, curthread)
      ensures quiet ==> |queue[self]| == |old(queue)[self]| && Total(queue) + |rest| == Total(old(queue)) + |victims|
      ensures quiet ==> forall c :: 0 <= c < |queue| && c != self ==> Topped(|old(queue)[c]|, |queue[c]|, share)
      ensures quiet && left > 0 ==> forall c :: 0 <= c < |queue| && c != self ==> |queue[c]| >= share
      ensures quiet ==> idle == old(idle) && Told(self, old(queue), queue, idle, old(told), told)
    {
      hide Once, Homes, Union, Total, Left, Distinct, Kernel.Everywhere, Kernel.Valid, Kernel.Upheld, OnlyGrew;
      SelfIsCpu(multiset(victims));
      OneGrew(queue, queue, others.still, self);
      NoneSent(victims, curthread);
      rest, left := victims, |victims|;
      var i := 0;
      while i < |queue| && left > 0
        invariant 0 <= i <= |queue| == old(|queue|) && self < |queue|
        invariant OnlyGrew(old(queue), queue, others.still) && Upheld(others.held)
        invariant Valid(multiset(rest)) && Everywhere() + multiset(rest) == old(Everywhere()) + multiset(victims)
        invariant old(queue)[self] <= queue[self]
        invariant left <= |victims| && rest == Left(victims, |victims| - left, curthread)
        invariant quiet ==> |queue[self]| == |old(queue)[self]| && Total(queue) + |rest| == Total(old(queue)) + |victims|
        invariant quiet ==> forall c :: 0 <= c < |queue| && c != self ==> Topped(|old(queue)[c]|, |queue[c]|, share)
        invariant quiet ==> forall c :: i <= c < |queue| ==> |queue[c]| == |old(queue)[c]|
        invariant quiet && left > 0 ==> forall c :: 0 <= c < i && c != self ==> |queue[c]| >= share
        invariant quiet ==> idle == old(idle) && Told(self, old(queue), queue, idle, old(told), told)
        decreases |queue| - i
      {
        if i != self {
          ghost var before := queue;
          rest, left := Fill(i, rest, left, share, victims, others.held);
          TotalUpdate(before, i, queue[i]);
          ghost var after := queue;
          OneGrew(before, after, others.still, i);
          OtherCpus(multiset(rest), others, quiet);
          OwnGrew(after, queue, others.still);
          GrewTwice(old(queue), before, after, others.still);
          GrewTwice(old(queue), after, queue, others.still);
          if quiet {
            SameTotal(after, queue);
          }
        }
        i := i + 1;
      }
    }

    lemma SelfIsCpu(victims: multiset<Tid>)
      requires Valid(victims)
      ensures self < |queue| == |idle| == |told|
    {
    }

    /** Puts what is left back on this cpu's queue. */
    method PutBack(victims: seq<Tid>)
      requires Valid(multiset(victims))
      modifies this`queue
      ensures Valid(multiset{}) && Everywhere() == old(Everywhere()) + multiset(victims)
      ensures queue == old(queue)[self := old(queue)[self] + victims]
    {
      hide Once, Homes, Union, Kernel.Everywhere;
      ghost var q0 := queue;
      var rest := victims;
      while rest != []
        invariant |queue| == |q0| && queue[self] + rest == q0[self] + victims && queue == q0[self := queue[self]]
        invariant Valid(multiset(rest)) && Everywhere() + multiset(rest) == old(Everywhere()) + multiset(victims)
        decreases |rest|
      {
        KeepFirst(rest);
        rest := rest[1..];
      }
      assert multiset(rest) == multiset{} && Everywhere() + multiset(rest) == Everywhere();
      assert queue[self] + rest == queue[self];
    }

    /** Sends the threads that exceed this cpu's share to cpus that are below theirs.

        To the other cpus it does what it relies on them to do: it only adds to their queues, at the
        end, and leaves the threads in their hands alone. With the queues quiet: it keeps exactly its
        share, and the current thread if that was among those to send; no other queue is pushed above its
        share; and exactly the idle cpus whose queues grow are told. */
    method ConsiderMigration(ghost others: Claim, ghost quiet: bool)
      requires Valid(multiset{}) && self !in others.still && Upheld(others.held)
      modifies this
      ensures Valid(multiset{}) && Everywhere() == old(Everywhere()) && |queue| == old(|queue|)
      ensures OnlyGrew(old(queue), queue, others.still) && Upheld(others.held)
      ensures quiet && |old(queue)[self]| < Share(old(queue)) ==> SameLengths(old(queue), queue)
      ensures quiet && |old(queue)[self]| >= Share(old(queue)) ==>
                && queue[self] == Kept(old(queue)[self], Share(old(queue)), curthread)
                && forall c :: 0 <= c < |queue| && c != self ==> Topped(|old(queue)[c]|, |queue[c]|, Share(old(queue)))
      ensures quiet ==> idle == old(idle) && Told(self, old(queue), queue, idle, old(told), told)
    {
      hide Once, Homes, Union, Total, Left, Distinct, Kernel.Everywhere, Kernel.Valid, Kernel.Upheld, OnlyGrew, Kept;
      SelfIsCpu(multiset{});
      ghost var q0 := queue;
      var mine, total := Count(others, quiet);
      var share := DivRoundUp(total, |queue|);
      if mine < share {
        return;
      }
      ghost var q1 := queue;
      var victims := TakeVictims(mine - share);
      TotalUpdate(q1, self, queue[self]);
      VictimsDistinct(victims);
      ghost var q2 := queue;
      OneGrew(q1, q2, others.still, self);
      OtherCpus(multiset(victims), others, quiet);
      ghost var q3 := queue;
      OwnGrew(q2, q3, others.still);
      GrewTwice(q0, q1, q2, others.still);
      GrewTwice(q0, q2, q3, others.still);
      var rest, left := SendAll(victims, share, others, quiet);
      GrewTwice(q0, q3, queue, others.still);
      ghost var q4 := queue;
      if quiet {
        SameTotal(q0, q1);
        SameTotal(q2, q3);
        LeftLong(victims, |victims| - left, curthread);
        AllSent(queue, self, share, |rest|, Total(q0), left);
        AllLeft(victims, curthread);
        OwnQueue(q0[self], q2[self], queue[self], victims, share, curthread);
      }
      PutBack(rest);
      OneGrew(q4, queue, others.still, self);
      GrewTwice(q0, q4, queue, others.still);
    }

    lemma VictimsDistinct(victims: seq<Tid>)
      requires Valid(multiset(victims))
      ensures Distinct(victims)
    {
      hide Union;
      OnceDistinct(Everywhere(), victims);
    }

    method KeepFirst(victims: seq<Tid>)
      requires Valid(multiset(victims)) && victims != []
      modifies this`queue
      ensures Valid(multiset(victims[1..])) && Everywhere() + multiset(victims[1..]) == old(Everywhere()) + multiset(victims)
      ensures queue == old(queue)[self := old(queue)[self] + [victims[0]]]
    {
      hide Once, Homes, Union;
      Sent(queue, cpuOf, elsewhere, victims, self);
      assert cpuOf[victims[0] := self] == cpuOf;
      assert victims == [victims[0]] + victims[1..];
      queue := queue[self := queue[self] + [victims[0]]];
    }
  }

  function Share(qs: seq<seq<Tid>>): nat
    requires qs != []
  {
    DivRoundUp(Total(qs), |qs|)
  }

  /** The first share threads of a queue, and the current thread if it is after them. */
  function Kept(q: seq<Tid>, share: nat, cur: Tid): seq<Tid>
    requires share <= |q|
  {
    q[..share] + if cur in q[share..] then [cur] else []
  }

  lemma OnceDistinct(m: multiset<Tid>, q: seq<Tid>)
    requires Once(m + multiset(q))
    ensures Distinct(q)
  {
    forall a, b | 0 <= a < b < |q|
      ensures q[a] != q[b]
    {
      var t := q[a];
      assert q == q[..b] + [q[b]] + q[b + 1..];
      assert t in q[..b] by {
        assert q[..b][a] == t;
      }
      assert (m + multiset(q))[t] >= multiset(q[..b])[t] + multiset{q[b]}[t];
    }
  }

  /** All victims find a place: if every queue had its share and some were left, there would be more
      threads than shares. */
  lemma AllSent(qs: seq<seq<Tid>>, self: nat, share: nat, rest: nat, total: nat, left: nat)
    requires self < |qs| && |qs[self]| == share && share == DivRoundUp(total, |qs|)
    requires Total(qs) + rest == total && left <= rest
    requires left > 0 ==> forall c :: 0 <= c < |qs| && c != self ==> |qs[c]| >= share
    ensures left == 0
  {
    if left > 0 {
      AtLeast(qs, share);
      assert false;
    }
  }

  lemma LeftLong(all: seq<Tid>, j: nat, cur: Tid)
    requires j <= |all|
    ensures |Left(all, j, cur)| >= |all| - j
  {
  }

  lemma AllLeft(all: seq<Tid>, cur: Tid)
    ensures Left(all, |all|, cur) == if cur in all then [cur] else []
  {
    assert all[..|all|] == all;
  }

  lemma OwnQueue(q0: seq<Tid>, q2: seq<Tid>, q: seq<Tid>, victims: seq<Tid>, share: nat, cur: Tid)
    requires q0 == q2 + victims && |q2| == share && q2 <= q && |q| == |q2|
    ensures share <= |q0| && q + (if cur in victims then [cur] else []) == Kept(q0, share, cur)
  {
  }

  /** A queue grew, if at all, up to the share. */
  predicate Topped(before: nat, after: nat, share: nat) {
    before <= after && (after <= share || after == before)
  }

  /** An idle cpu whose queue grew has been told; the others have been told nothing. */
  ghost predicate Told(self: nat, before: seq<seq<Tid>>, after: seq<seq<Tid>>, idle: seq<bool>, toldBefore: seq<bool>, told: seq<bool>) {
    && |before| == |after| == |idle| == |toldBefore| == |told|
    && forall c :: 0 <= c < |told| ==> (told[c] <==> toldBefore[c] || (c != self && idle[c] && |after[c]| > |before[c]|))
  }

  lemma NoneSent(victims: seq<Tid>, cur: Tid)
    ensures Left(victims, 0, cur) == victims
  {
  }

  lemma Rotated(q: seq<Tid>)
    requires q != []
    ensures multiset(q[1..] + [q[0]]) == multiset(q)
  {
    assert q == [q[0]] + q[1..];
  }

  lemma Sent(queue: seq<seq<Tid>>, cpuOf: map<Tid, nat>, elsewhere: multiset<Tid>, victims: seq<Tid>, d: nat)
    requires victims != [] && d < |queue| && Homes(queue, cpuOf) && Once(Union(queue) + elsewhere + multiset(victims))
    ensures var t, queue' := victims[0], queue[d := queue[d] + [victims[0]]];
            && Homes(queue', cpuOf[t := d])
            && Union(queue') + elsewhere + multiset(victims[1..]) == Union(queue) + elsewhere + multiset(victims)
    ensures victims[0] !in victims[1..]
  {
    hide Homes;
    var t := victims[0];
    assert victims == [t] + victims[1..];
    Grown(queue, d, t);
    forall c | 0 <= c < |queue|
      ensures t !in queue[c]
    {
      if t in queue[c] {
        InUnion(queue, c, t);
        assert false;
      }
    }
    assert (Union(queue) + elsewhere + multiset(victims))[t] >= 1 + multiset(victims[1..])[t];
    SentHomes(queue, cpuOf, t, d);
  }

  lemma SentHomes(queue: seq<seq<Tid>>, cpuOf: map<Tid, nat>, t: Tid, d: nat)
    requires d < |queue| && Homes(queue, cpuOf) && forall c :: 0 <= c < |queue| ==> t !in queue[c]
    ensures Homes(queue[d := queue[d] + [t]], cpuOf[t := d])
  {
    var queue' := queue[d := queue[d] + [t]];
    forall c | 0 <= c < |queue'|
      ensures Home(queue'[c], cpuOf[t := d], c)
    {
      assert Home(queue[c], cpuOf, c);
    }
  }

  lemma Shrunk(qs: seq<seq<Tid>>, i: nat)
    requires i < |qs| && qs[i] != []
    ensures Union(qs[i := qs[i][..|qs[i]| - 1]]) + multiset{qs[i][|qs[i]| - 1]} == Union(qs)
  {
    var q, t := qs[i][..|qs[i]| - 1], qs[i][|qs[i]| - 1];
    UnionUpdate(qs, i, q);
    assert qs[i] == q + [t];
    CancelLeft(Union(qs[i := q]), multiset{t}, Union(qs), multiset(q));
  }

  lemma Grown(qs: seq<seq<Tid>>, i: nat, t: Tid)
    requires i < |qs|
    ensures Union(qs[i := qs[i] + [t]]) == Union(qs) + multiset{t}
  {
    UnionUpdate(qs, i, qs[i] + [t]);
    CancelLeft(Union(qs), multiset{t}, Union(qs[i := qs[i] + [t]]), multiset(qs[i]));
  }

  lemma CancelLeft(a: multiset<Tid>, b: multiset<Tid>, c: multiset<Tid>, d: multiset<Tid>)
    requires a + (d + b) == c + d
    ensures a + b == c
  {
    forall t: Tid
      ensures (a + b)[t] == c[t]
    {
      assert (a + (d + b))[t] == (c + d)[t];
    }
  }
}
