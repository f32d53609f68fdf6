/** Queues served in order of arrival. */
module Fifo {
  import opened Lib

  /** The first n of q were taken, and the others kept their order; whoever joined came behind them. */
  ghost predicate ServedBy<T(!new)>(q: seq<T>, q': seq<T>, n: nat) {
    n <= |q| && q[n..] <= q' && forall k :: |q| - n <= k < |q'| ==> q'[k] !in q
  }

  ghost predicate Served<T(!new)>(q: seq<T>, q': seq<T>) {
    exists n :: ServedBy(q, q', n)
  }

  lemma Unserved<T(!new)>(q: seq<T>)
    ensures Served(q, q)
  {
    assert ServedBy(q, q, 0);
  }

  lemma Joined<T(!new)>(q: seq<T>, x: T)
    requires x !in q
    ensures Served(q, q + [x])
  {
    assert ServedBy(q, q + [x], 0);
  }

  lemma Took<T(!new)>(q: seq<T>, n: nat)
    requires n <= |q|
    ensures Served(q, q[n..])
  {
    assert ServedBy(q, q[n..], n);
  }

  /** a stands somewhere before b. */
  ghost predicate Before<T>(q: seq<T>, a: T, b: T) {
    exists i, j :: 0 <= i < j < |q| && q[i] == a && q[j] == b
  }

  /** A queue through time: it never has anyone twice, and it is served from each moment to the next. */
  ghost predicate History<T(!new)>(qs: seq<seq<T>>) {
    && (forall k :: 0 <= k < |qs| ==> Distinct(qs[k]))
    && (forall k :: 0 <= k < |qs| - 1 ==> Served(qs[k], qs[k + 1]))
  }

  /** Whoever was on the queue and still is has moved up by n. */
  lemma MovedUp<T(!new)>(q: seq<T>, q': seq<T>, n: nat, i: nat)
    requires ServedBy(q, q', n) && Distinct(q) && i < |q|
    ensures q[i] in q' <==> i >= n
    ensures i >= n ==> i - n < |q'| && q'[i - n] == q[i]
  {
    assert forall k :: 0 <= k < |q| - n ==> q'[k] == q[n..][k];
  }

  lemma InOrder<T>(q: seq<T>, i: nat, j: nat)
    requires i < j < |q|
    ensures Before(q, q[i], q[j]) && q[j] in q
  {
  }

  lemma OnlyOld<T(!new)>(q: seq<T>, q': seq<T>, n: nat)
    requires ServedBy(q, q', n)
    ensures forall k :: 0 <= k < |q| - n ==> k < |q'| && q'[k] in q
  {
    assert forall k :: 0 <= k < |q| - n ==> q'[k] == q[n..][k];
  }

  lemma NotOvertakenOnce<T(!new)>(q: seq<T>, q': seq<T>, a: T, b: T)
    requires Served(q, q') && Distinct(q) && a in q && a in q' && a != b
    requires b !in q || Before(q, a, b)
    ensures b in q ==> b in q'
    ensures b !in q' || Before(q', a, b)
  {
    hide Distinct, ServedBy, Before;
    var n: nat :| ServedBy(q, q', n);
    if b in q {
      var x: nat, y: nat := Places(q, a, b);
      MovedUp(q, q', n, x);
      MovedUp(q, q', n, y);
      InOrder(q', x - n, y - n);
    } else if b in q' {
      var x: nat :| x < |q| && q[x] == a;
      MovedUp(q, q', n, x);
      var y: nat :| y < |q'| && q'[y] == b;
      OnlyOld(q, q', n);
      InOrder(q', x - n, y);
    }
  }

  lemma Places<T>(q: seq<T>, a: T, b: T) returns (i: nat, j: nat)
    requires Before(q, a, b)
    ensures i < j < |q| && q[i] == a && q[j] == b
  {
    i, j :| 0 <= i < j < |q| && q[i] == a && q[j] == b;
  }

  /** As long as a is on the queue nobody gets past it: whoever was behind it stays behind it, and so does
      whoever joins. */
  lemma {:induction false} NotOvertaken<T(!new)>(qs: seq<seq<T>>, i: nat, j: nat, a: T, b: T)
    requires History(qs) && i <= j < |qs| && a != b
    requires forall k :: i <= k <= j ==> a in qs[k]
    requires b !in qs[i] || Before(qs[i], a, b)
    ensures b in qs[i] ==> b in qs[j]
    ensures b !in qs[j] || Before(qs[j], a, b)
  {
    if i < j {
      NotOvertaken(qs, i, j - 1, a, b);
      NotOvertakenOnce(qs[j - 1], qs[j - 1 + 1], a, b);
    }
  }
}
