/** The intrusive lists and the use bits of page descriptors (vm/kmalloc.c:191-213, 256-346, 822-845).

    Descriptors are numbered; a link is the number of the next descriptor, or NONE. */
module KheapLists {

  const NONE: int := -1

  /** Element i of a list, or the end. */
  function Head(list: seq<nat>, i: nat): int {
    if i < |list| then list[i] else NONE
  }

  /** From base, the links run through exactly the descriptors in list, in that order. */
  ghost predicate Linked(base: int, next: seq<int>, list: seq<nat>) {
    && (forall i :: 0 <= i < |list| ==> list[i] < |next|)
    && (forall i, j :: 0 <= i < j < |list| ==> list[i] != list[j])
    && base == Head(list, 0)
    && forall i {:trigger next[list[i]]} :: 0 <= i < |list| ==> next[list[i]] == Head(list, i + 1)
  }

  lemma LinkedFrame(base: int, next: seq<int>, next': seq<int>, list: seq<nat>)
    requires Linked(base, next, list) && |next'| == |next|
    requires forall s :: s in list ==> next'[s] == next[s]
    ensures Linked(base, next', list)
  {
    forall i | 0 <= i < |list|
      ensures next'[list[i]] == Head(list, i + 1)
    {
      assert list[i] in list;
    }
  }

  function Cons(s: nat, list: seq<nat>): (r: seq<nat>)
    ensures |r| == |list| + 1 && r[0] == s && forall i :: 0 < i <= |list| ==> r[i] == list[i - 1]
  {
    [s] + list
  }

  lemma LinkedPush(base: int, next: seq<int>, list: seq<nat>, s: nat)
    requires Linked(base, next, list) && s < |next| && s !in list
    ensures Linked(s, next[s := base], Cons(s, list))
  {
    hide Cons;
    var more, next' := Cons(s, list), next[s := base];
    forall i | 0 <= i < |more|
      ensures next'[more[i]] == Head(more, i + 1)
    {
      if i > 0 {
        assert list[i - 1] in list;
      }
    }
    forall i, j | 0 <= i < j < |more|
      ensures more[i] != more[j]
    {
      assert list[j - 1] in list;
    }
  }

  function Without(list: seq<nat>, i: nat): (r: seq<nat>)
    requires i < |list|
    ensures |r| == |list| - 1
    ensures forall j :: 0 <= j < i ==> r[j] == list[j]
    ensures forall j {:trigger r[j]} :: i <= j < |r| ==> r[j] == list[j + 1]
  {
    list[..i] + list[i + 1..]
  }

  lemma WithoutHolds(list: seq<nat>, i: nat)
    requires i < |list| && forall i, j :: 0 <= i < j < |list| ==> list[i] != list[j]
    ensures forall s :: s in Without(list, i) <==> s in list && s != list[i]
  {
    hide Without;
    var r := Without(list, i);
    forall s | s in list && s != list[i]
      ensures s in r
    {
      var j :| 0 <= j < |list| && list[j] == s;
      if j < i {
        assert r[j] == s;
      } else {
        assert r[j - 1] == s;
      }
    }
    forall s | s in r
      ensures s in list && s != list[i]
    {
      var j :| 0 <= j < |r| && r[j] == s;
      if j < i {
        assert s == list[j];
      } else {
        assert s == list[j + 1];
      }
    }
  }

  /** The link that leads to element i: the base, or that of the element before. */
  function Unlinked(next: seq<int>, list: seq<nat>, i: nat): seq<int>
    requires i < |list| && forall j :: 0 <= j < |list| ==> list[j] < |next|
  {
    if i == 0 then next else next[list[i - 1] := next[list[i]]]
  }

  /** Taking out element i redirects that link past it. */
  lemma LinkedRemove(base: int, next: seq<int>, list: seq<nat>, i: nat)
    requires Linked(base, next, list) && i < |list|
    ensures Linked(if i == 0 then next[list[0]] else base, Unlinked(next, list, i), Without(list, i))
  {
    hide Without;
    var r, next' := Without(list, i), Unlinked(next, list, i);
    forall j | 0 <= j < |r|
      ensures r[j] < |next| && next'[r[j]] == Head(r, j + 1)
    {
      RemovedLink(base, next, list, i, j);
    }
    forall j, m | 0 <= j < m < |r|
      ensures r[j] != r[m]
    {
      var j', m' := if j < i then j else j + 1, if m < i then m else m + 1;
      assert r[j] == list[j'] && r[m] == list[m'] && j' < m';
    }
  }

  lemma RemovedLink(base: int, next: seq<int>, list: seq<nat>, i: nat, j: nat)
    requires Linked(base, next, list) && i < |list| && j < |list| - 1
    ensures var r := Without(list, i); r[j] < |next| && Unlinked(next, list, i)[r[j]] == Head(r, j + 1)
  {
    hide Without;
    var r := Without(list, i);
    var m := if j < i then j else j + 1;
    assert r[j] == list[m] && next[list[m]] == Head(list, m + 1);
    if i > 0 {
      assert next[list[i]] == Head(list, i + 1);
    }
  }

  // ---------------------------------------------------------------- use bits

  function Trues(bits: seq<bool>): (n: nat)
    ensures n <= |bits|
  {
    if bits == [] then 0 else (if bits[0] then 1 else 0) + Trues(bits[1..])
  }

  lemma {:induction false} TruesUpdate(bits: seq<bool>, i: nat, b: bool)
    requires i < |bits|
    ensures Trues(bits[i := b]) + (if bits[i] then 1 else 0) == Trues(bits) + if b then 1 else 0
  {
    if i > 0 {
      TruesUpdate(bits[1..], i - 1, b);
      assert bits[i := b][1..] == bits[1..][i - 1 := b];
    } else {
      assert bits[i := b][1..] == bits[1..];
    }
  }

  /** The count is full exactly when every bit is set, and zero exactly when none is. */
  lemma {:induction false} TruesExtremes(bits: seq<bool>)
    ensures Trues(bits) == |bits| <==> forall i :: 0 <= i < |bits| ==> bits[i]
    ensures Trues(bits) == 0 <==> forall i :: 0 <= i < |bits| ==> !bits[i]
  {
    if bits != [] {
      TruesExtremes(bits[1..]);
      var rest := bits[1..];
      assert forall i :: 0 < i < |bits| ==> bits[i] == rest[i - 1];
      assert forall i :: 0 <= i < |rest| ==> rest[i] == bits[i + 1];
    }
  }
}
