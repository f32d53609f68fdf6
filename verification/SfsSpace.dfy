/** How much free space it takes to write to several blocks of a file in a row (sfs_bmap.c:48-198,
    sfs_io.c:291-389). */
module SfsSpace {
  import opened Lib
  import opened SfsLayout
  import opened SfsState
  import opened SfsVolume
  import opened SfsBalloc
  import opened SfsBmap

  /** The blocks from a on and before b that a file could map and does not. */
  ghost function Unmapped(v: View, ino: nat, a: nat, b: nat): nat
    decreases b
  {
    if b <= a then 0
    else Unmapped(v, ino, a, b - 1) + if b - 1 < MAXFILEBLOCKS && Slot(v, ino, b - 1) == 0 then 1 else 0
  }

  /** Some of them would be recorded in the indirect block. */
  predicate Indirectly(a: nat, b: nat) {
    a < b && NDIRECT < b && a < MAXFILEBLOCKS
  }

  /** How many free blocks it takes to have all of them mapped. */
  ghost function NeedAll(v: View, ino: nat, a: nat, b: nat): nat {
    Unmapped(v, ino, a, b) + if InodeOf(v, ino).indirect == 0 && Indirectly(a, b) then 1 else 0
  }

  lemma {:induction false} NeedGrows(v: View, ino: nat, a: nat, b: nat, c: nat)
    requires b <= c
    ensures NeedAll(v, ino, a, b) <= NeedAll(v, ino, a, c)
    ensures a == b >= MAXFILEBLOCKS || b == MAXFILEBLOCKS ==> NeedAll(v, ino, a, b) == NeedAll(v, ino, a, c)
    decreases c
  {
    hide Slot, InodeOf;
    if b < c {
      NeedGrows(v, ino, a, b, c - 1);
    }
  }

  /** From u to v, blocks a to k of a file have been mapped one after the other, and nothing else has. */
  ghost predicate Spent(u: View, v: View, ino: nat, a: nat, k: nat) {
    && a <= k && |FreeBlocks(v)| + NeedAll(u, ino, a, k) == |FreeBlocks(u)|
    && (forall j: nat :: j >= k ==> Slot(v, ino, j) == Slot(u, ino, j))
    && (InodeOf(v, ino).indirect != 0 <==> InodeOf(u, ino).indirect != 0 || Indirectly(a, k))
  }

  lemma NothingSpent(u: View, ino: nat, a: nat)
    ensures Spent(u, u, ino, a, a)
  {
  }

  /** Each block costs what the blocks before it leave to be paid. */
  lemma NeedNext(u: View, v: View, ino: nat, a: nat, k: nat)
    requires Spent(u, v, ino, a, k)
    ensures NeedAll(u, ino, a, k) + Need(v, ino, k) == NeedAll(u, ino, a, k + 1)
  {
    hide InodeOf;
    assert Slot(v, ino, k) == Slot(u, ino, k);
    Recorded(u, ino, k);
    assert Unmapped(u, ino, a, k + 1) == Unmapped(u, ino, a, k) + if k < MAXFILEBLOCKS && Slot(u, ino, k) == 0 then 1 else 0;
  }

  lemma Recorded(v: View, ino: nat, k: nat)
    ensures NDIRECT <= k && Slot(v, ino, k) != 0 ==> InodeOf(v, ino).indirect != 0
  {
  }

  lemma SpentNext(u: View, v: View, w: View, ino: nat, a: nat, k: nat)
    requires Spent(u, v, ino, a, k) && Mapped(v, w, ino, k) && k < MAXFILEBLOCKS
    ensures Spent(u, w, ino, a, k + 1)
  {
    hide InodeOf, Slot, Need, NeedAll;
    NeedNext(u, v, ino, a, k);
  }

  /** The free blocks last up to block k, but not for it. */
  ghost predicate RunsOutAt(v: View, ino: nat, a: nat, k: nat) {
    a <= k && NeedAll(v, ino, a, k) <= |FreeBlocks(v)| < NeedAll(v, ino, a, k + 1)
  }

  lemma RunsOut(u: View, v: View, ino: nat, a: nat, k: nat)
    requires Spent(u, v, ino, a, k)
    ensures a <= k && NeedAll(u, ino, a, k) <= |FreeBlocks(u)|
    ensures |FreeBlocks(v)| < Need(v, ino, k) <==> RunsOutAt(u, ino, a, k)
  {
    hide InodeOf, Slot, Need, NeedAll, FreeBlocks;
    NeedNext(u, v, ino, a, k);
  }

  /** What writing resid bytes at a position of a file comes to. A request for nothing in the middle of a
      block has that block mapped all the same. */
  ghost function WriteError(v: View, ino: nat, pos: nat, resid: nat): Errno {
    var a, b := pos / BLOCKSIZE, DivRoundUp(pos + resid, BLOCKSIZE);
    if NeedAll(v, ino, a, b) > |FreeBlocks(v)| then ENOSPC
    else if a < b && MAXFILEBLOCKS < b then EFBIG
    else Ok
  }

  lemma WriteDone(u: View, v: View, ino: nat, pos: nat, resid: nat, k: nat)
    requires Spent(u, v, ino, pos / BLOCKSIZE, k) && k == DivRoundUp(pos + resid, BLOCKSIZE)
    requires k == pos / BLOCKSIZE || k <= MAXFILEBLOCKS
    ensures WriteError(u, ino, pos, resid) == Ok
  {
    hide NeedAll, FreeBlocks;
  }

  lemma WriteStopped(u: View, ino: nat, pos: nat, resid: nat, k: nat)
    requires pos / BLOCKSIZE <= k < DivRoundUp(pos + resid, BLOCKSIZE) && NeedAll(u, ino, pos / BLOCKSIZE, k) <= |FreeBlocks(u)|
    ensures k >= MAXFILEBLOCKS && (k == pos / BLOCKSIZE || k <= MAXFILEBLOCKS) ==> WriteError(u, ino, pos, resid) == EFBIG
    ensures RunsOutAt(u, ino, pos / BLOCKSIZE, k) ==> WriteError(u, ino, pos, resid) == ENOSPC
  {
    hide NeedAll, FreeBlocks;
    var a, b := pos / BLOCKSIZE, DivRoundUp(pos + resid, BLOCKSIZE);
    NeedGrows(u, ino, a, k, b);
    NeedGrows(u, ino, a, k + 1, b);
  }
}
