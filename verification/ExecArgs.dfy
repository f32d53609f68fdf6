/** How execv passes arguments (syscall/fork.c:210-339): copied into kernel buffers as a block of
    offsets and strings, and turned into a block of pointers and strings once the place on the new
    stack is known. */
module ExecArgs {
  import opened Lib

  const BUFFER: nat := 65536
  const WORD: nat := 4
  const EFAULT: nat := 6

  // ---------------------------------------------------------------- what user memory holds

  /** What fetching one element of the argument array yields: the pointer cannot be read; it is null;
      the string cannot be copied; or a string. */
  datatype Fetched = Unreadable(err: nat) | End | Bad(err: nat) | Text(text: seq<Byte>)

  predicate IsText(t: seq<Byte>) {
    |t| < BUFFER && forall i :: 0 <= i < |t| ==> t[i] != 0
  }

  /** Strings that copyinstr can copy. */
  predicate Sane(user: seq<Fetched>) {
    forall i :: 0 <= i < |user| && user[i].Text? ==> IsText(user[i].text)
  }

  lemma SaneText(user: seq<Fetched>, i: nat)
    requires Sane(user) && Fetch(user, i).Text?
    ensures i < |user| && IsText(Fetch(user, i).text)
  {
  }

  function Fetch(user: seq<Fetched>, i: nat): Fetched {
    if i < |user| then user[i] else Unreadable(EFAULT)
  }

  datatype Scan = Failed(err: nat) | Found(texts: seq<seq<Byte>>)

  /** The arguments from element i on: they end at a null pointer, and also, except at the very
      beginning, at a pointer that cannot be read. */
  function ScanFrom(user: seq<Fetched>, i: nat): Scan
    decreases |user| - i
  {
    match Fetch(user, i)
    case Unreadable(err) => if i == 0 then Failed(err) else Found([])
    case End => Found([])
    case Bad(err) => Failed(err)
    case Text(t) =>
      Prepend([t], ScanFrom(user, i + 1))
  }

  function Prepend(texts: seq<seq<Byte>>, s: Scan): Scan {
    match s
    case Failed(err) => Failed(err)
    case Found(rest) => Found(texts + rest)
  }

  lemma PrependNext(texts: seq<seq<Byte>>, t: seq<Byte>, s: Scan)
    ensures Prepend(texts, Prepend([t], s)) == Prepend(texts + [t], s)
  {
    if s.Found? {
      assert texts + ([t] + s.texts) == texts + [t] + s.texts;
    }
  }

  /** Element i of an argument array that scans well. */
  lemma {:induction false} ScanAt(user: seq<Fetched>, i: nat, texts: seq<seq<Byte>>)
    requires ScanFrom(user, 0) == Found(texts) && i <= |texts|
    ensures i > 0 ==> ScanFrom(user, i) == Found(texts[i..])
    ensures i < |texts| ==> Fetch(user, i) == Text(texts[i])
    ensures i == |texts| ==> Fetch(user, i).End? || Fetch(user, i).Unreadable?
  {
    if i > 0 {
      ScanAt(user, i - 1, texts);
      assert ScanFrom(user, i - 1) == Found(texts[i - 1..]);
      assert texts[i - 1..] == [texts[i - 1]] + texts[i..];
      assert texts[i - 1..][1..] == texts[i..];
    }
  }

  /** Element k is the first, from i on, that is no string, and it makes the arguments fail: the string
      cannot be copied, or the array itself cannot be read at all. */
  predicate FailsAt(user: seq<Fetched>, i: nat, k: nat, err: nat) {
    && i <= k && (forall j :: i <= j < k ==> Fetch(user, j).Text?)
    && (Fetch(user, k) == Bad(err) || (k == 0 && Fetch(user, 0) == Unreadable(err)))
  }

  /** Which error a failure is reported with. */
  lemma {:induction false} ScanFails(user: seq<Fetched>, i: nat, err: nat)
    ensures ScanFrom(user, i) == Failed(err) <==> exists k :: FailsAt(user, i, k, err)
    decreases |user| - i
  {
    if Fetch(user, i).Text? {
      var next := i + 1;
      ScanFails(user, next, err);
      if k :| FailsAt(user, next, k, err) {
        assert FailsAt(user, i, k, err);
      }
      if k :| FailsAt(user, i, k, err) {
        assert FailsAt(user, next, k, err);
      }
    } else {
      assert ScanFrom(user, i) == Failed(err) ==> FailsAt(user, i, i, err);
    }
  }

  // ---------------------------------------------------------------- the layout

  function Aligned(len: nat): (r: nat)
    ensures r % WORD == 0 && len <= r < len + WORD
  {
    if len % WORD == 0 then len else len + (WORD - len % WORD)
  }

  /** The bytes that a string takes up, with its terminator. */
  function Room(t: seq<Byte>): nat {
    Aligned(|t| + 1)
  }

  lemma AlignedSum(a: nat, b: nat)
    requires a % WORD == 0 && b % WORD == 0
    ensures (a + b) % WORD == 0
  {
  }

  /** Where string i goes; for the number of strings, where the block ends. */
  function Offset(texts: seq<seq<Byte>>, i: nat): (r: nat)
    requires i <= |texts|
    ensures r % WORD == 0 && r >= WORD * (|texts| + 1)
  {
    if i == 0 then WORD * (|texts| + 1)
    else
      AlignedSum(Offset(texts, i - 1), Room(texts[i - 1]));
      Offset(texts, i - 1) + Room(texts[i - 1])
  }

  lemma {:induction false} OffsetsRise(texts: seq<seq<Byte>>, i: nat, j: nat)
    requires i < j <= |texts|
    ensures Offset(texts, i) + Room(texts[i]) <= Offset(texts, j)
    decreases j
  {
    if i < j - 1 {
      OffsetsRise(texts, i, j - 1);
    }
  }

  lemma OffsetNext(texts: seq<seq<Byte>>, i: nat)
    requires i < |texts|
    ensures Offset(texts, i + 1) == Offset(texts, i) + Room(texts[i]) && Offset(texts, 0) == WORD * (|texts| + 1)
  {
  }

  /** The room for all the strings. */
  function Size(texts: seq<seq<Byte>>): nat {
    if texts == [] then 0 else Size(texts[..|texts| - 1]) + Room(texts[|texts| - 1])
  }

  lemma {:induction false} OffsetIsSize(texts: seq<seq<Byte>>, i: nat)
    requires i <= |texts|
    ensures Offset(texts, i) == WORD * (|texts| + 1) + Size(texts[..i])
  {
    if i > 0 {
      OffsetIsSize(texts, i - 1);
      assert texts[..i][..i - 1] == texts[..i - 1];
    }
  }

  lemma SizeNext(texts: seq<seq<Byte>>, t: seq<Byte>)
    ensures Size(texts + [t]) == Size(texts) + Room(t)
  {
    assert (texts + [t])[..|texts|] == texts;
  }

  /** Padding a string writes its last byte one place too far. */
  predicate PadFits(t: seq<Byte>) {
    (|t| + 1) % WORD == 0 || Room(t) < BUFFER
  }

  /** Arguments for which nothing is written outside the buffers: the whole block fits. */
  predicate Fits(texts: seq<seq<Byte>>) {
    Offset(texts, |texts|) <= BUFFER
  }

  /** Nothing checks that it does: an argument that copyinstr accepts can be too long. */
  lemma NotAlwaysFits()
    ensures var t: seq<Byte> := seq(BUFFER - 8, _ => 97); IsText(t) && !Fits([t])
  {
    var t: seq<Byte> := seq(BUFFER - 8, _ => 97);
    assert Offset([t], 1) == Offset([t], 0) + Room(t);
  }

  // ---------------------------------------------------------------- words

  function Number(d0: nat, d1: nat, d2: nat, d3: nat): nat {
    d0 + 0x100 * d1 + 0x1_0000 * d2 + 0x100_0000 * d3
  }

  function LittleWord(b: seq<Byte>, k: nat): nat
    requires k + WORD <= |b|
  {
    Number(b[k] as nat, b[k + 1] as nat, b[k + 2] as nat, b[k + 3] as nat)
  }

  function BigWord(b: seq<Byte>, k: nat): nat
    requires k + WORD <= |b|
  {
    Number(b[k + 3] as nat, b[k + 2] as nat, b[k + 1] as nat, b[k] as nat)
  }

  /** A word as the machine reads it. */
  function Word(big: bool, b: seq<Byte>, k: nat): nat
    requires k + WORD <= |b|
  {
    if big then BigWord(b, k) else LittleWord(b, k)
  }

  function Digit(w: nat, d: nat): Byte {
    match d
    case 0 => (w % 0x100) as Byte
    case 1 => (w / 0x100 % 0x100) as Byte
    case 2 => (w / 0x1_0000 % 0x100) as Byte
    case _ => (w / 0x100_0000 % 0x100) as Byte
  }

  lemma Digits(w: nat)
    requires w < 0x1_0000_0000
    ensures w == Number(Digit(w, 0) as nat, Digit(w, 1) as nat, Digit(w, 2) as nat, Digit(w, 3) as nat)
  {
    assert w / 0x1_0000 == w / 0x100 / 0x100;
    assert w / 0x100_0000 == w / 0x100 / 0x100 / 0x100;
  }

  // ---------------------------------------------------------------- the two kinds of block

  /** String i and its terminator are in place. */
  predicate HasText(b: seq<Byte>, k: nat, t: seq<Byte>) {
    k + |t| < |b| && b[k..k + |t|] == t && b[k + |t|] == 0
  }

  /** String j of a block of offsets, and its word. */
  predicate PackedAt(b: seq<Byte>, texts: seq<seq<Byte>>, j: nat)
    requires j < |texts|
  {
    WORD * j + WORD <= |b| && LittleWord(b, WORD * j) == Offset(texts, j) && HasText(b, Offset(texts, j), texts[j])
  }

  /** The first i of them. */
  predicate Packed(b: seq<Byte>, texts: seq<seq<Byte>>, i: nat)
    requires i <= |texts|
  {
    forall j :: 0 <= j < i ==> PackedAt(b, texts, j)
  }

  /** Writing argument i leaves the others alone. */
  lemma PackedKept(b0: seq<Byte>, b2: seq<Byte>, texts: seq<seq<Byte>>, i: nat, j: nat)
    requires j < i < |texts| && PackedAt(b0, texts, j) && |b2| == |b0|
    requires forall k :: 0 <= k < |b0| && k < Offset(texts, i) && !(WORD * i <= k < WORD * i + WORD) ==> b2[k] == b0[k]
    ensures PackedAt(b2, texts, j)
  {
    hide Number, Room;
    OffsetsRise(texts, j, i);
    RoomEnough(texts[j]);
    TextSame(b0, b2, Offset(texts, j), texts[j]);
  }

  lemma PackedMore(b0: seq<Byte>, b1: seq<Byte>, b2: seq<Byte>, karg: seq<Byte>, texts: seq<seq<Byte>>, i: nat)
    requires |b0| == |b1| == |b2| == |karg| == BUFFER && i < |texts| && Packed(b0, texts, i) && WORD * (i + 1) <= BUFFER
    requires LittleWord(b1, WORD * i) == Offset(texts, i) && Offset(texts, i + 1) <= BUFFER && HasText(karg, 0, texts[i])
    requires forall k :: 0 <= k < BUFFER && !(WORD * i <= k < WORD * i + WORD) ==> b1[k] == b0[k]
    requires forall k :: 0 <= k < BUFFER ==>
               b2[k] == if Offset(texts, i) <= k < Offset(texts, i + 1) then karg[k - Offset(texts, i)] else b1[k]
    ensures Packed(b2, texts, i + 1)
  {
    hide Number, PackedAt, HasText, Offset;
    forall j | 0 <= j < i
      ensures PackedAt(b2, texts, j)
    {
      PackedKept(b0, b2, texts, i, j);
    }
    PackedLast(b1, b2, karg, texts, i);
  }

  lemma PackedLast(b1: seq<Byte>, b2: seq<Byte>, karg: seq<Byte>, texts: seq<seq<Byte>>, i: nat)
    requires |b1| == |b2| == |karg| == BUFFER && i < |texts| && WORD * (i + 1) <= BUFFER
    requires LittleWord(b1, WORD * i) == Offset(texts, i) && Offset(texts, i + 1) <= BUFFER && HasText(karg, 0, texts[i])
    requires forall k :: 0 <= k < BUFFER ==>
               b2[k] == if Offset(texts, i) <= k < Offset(texts, i + 1) then karg[k - Offset(texts, i)] else b1[k]
    ensures PackedAt(b2, texts, i)
  {
    hide Number, Room;
    RoomEnough(texts[i]);
    TextCopied(karg, b2, Offset(texts, i), texts[i]);
  }

  lemma RoomEnough(t: seq<Byte>)
    ensures Room(t) > |t|
  {
  }

  lemma TextCopied(karg: seq<Byte>, b: seq<Byte>, k: nat, t: seq<Byte>)
    requires HasText(karg, 0, t) && k + |t| < |b| && forall i :: 0 <= i <= |t| ==> b[k + i] == karg[i]
    ensures HasText(b, k, t)
  {
    forall i | 0 <= i < |t|
      ensures b[k + i] == t[i]
    {
      assert karg[i] == karg[0..|t|][i];
    }
    assert b[k..k + |t|] == t;
  }

  lemma TextSame(b: seq<Byte>, b': seq<Byte>, k: nat, t: seq<Byte>)
    requires HasText(b, k, t) && |b'| == |b| && forall i :: k <= i <= k + |t| ==> b'[i] == b[i]
    ensures HasText(b', k, t)
  {
    assert b'[k..k + |t|] == b[k..k + |t|];
  }

  datatype Copied = Copied(nargs: nat, buflen: nat) | Refused(err: nat) | Overrun

  /** The outcome of copying arguments that can all be read. */
  ghost predicate Laid(r: Copied, b: seq<Byte>, texts: seq<seq<Byte>>) {
    if Fits(texts) then
      && r == Copied(|texts| + 1, Offset(texts, |texts|)) && r.buflen <= BUFFER == |b|
      && Packed(b, texts, |texts|) && WORD * |texts| + WORD <= |b| && LittleWord(b, WORD * |texts|) == 0
    else r == Overrun
  }

  lemma NoneYet(b: seq<Byte>, texts: seq<seq<Byte>>)
    ensures Packed(b, texts, 0) && Offset(texts, 0) == WORD * (|texts| + 1)
  {
  }

  lemma OffsetBounds(texts: seq<seq<Byte>>, i: nat)
    requires i <= |texts|
    ensures Offset(texts, i) >= WORD * (|texts| + 1)
  {
  }

  /** Whatever trips over the end of a buffer, the block as a whole does not fit. */
  lemma FitsMeans(texts: seq<seq<Byte>>, i: nat)
    requires i < |texts| && !(PadFits(texts[i]) && Offset(texts, i + 1) <= BUFFER)
    ensures !Fits(texts)
  {
    OffsetNext(texts, i);
    OffsetBounds(texts, i);
    assert Room(texts[i]) >= BUFFER || Offset(texts, i + 1) > BUFFER;
    if i + 1 < |texts| {
      OffsetsRise(texts, i + 1, |texts|);
    }
  }

  /** The null word at the end leaves the others alone. */
  lemma LastWord(b0: seq<Byte>, b: seq<Byte>, texts: seq<seq<Byte>>)
    requires |b0| == |b| && WORD * |texts| + WORD <= |b| && Packed(b0, texts, |texts|)
    requires forall k :: 0 <= k < |b| && !(WORD * |texts| <= k < WORD * |texts| + WORD) ==> b[k] == b0[k]
    ensures Packed(b, texts, |texts|)
  {
    hide Number, Room, Offset;
    forall j | 0 <= j < |texts|
      ensures PackedAt(b, texts, j)
    {
      assert PackedAt(b0, texts, j);
      OffsetBounds(texts, j);
      TextSame(b0, b, Offset(texts, j), texts[j]);
    }
  }

  // ---------------------------------------------------------------- what the new program sees

  /** String j of a block of pointers, and its word. */
  predicate PointedAt(big: bool, b: seq<Byte>, texts: seq<seq<Byte>>, base: nat, j: nat)
    requires j < |texts|
  {
    && WORD * j + WORD <= |b| && Word(big, b, WORD * j) == (base + Offset(texts, j)) % 0x1_0000_0000
    && HasText(b, Offset(texts, j), texts[j])
  }

  /** Words below i are pointers already, and the others offsets still. */
  ghost predicate Relocated(big: bool, b: seq<Byte>, texts: seq<seq<Byte>>, base: nat, i: nat)
    requires i <= |texts|
  {
    && (forall j :: 0 <= j < i ==> PointedAt(big, b, texts, base, j))
    && forall j :: i <= j < |texts| ==> PackedAt(b, texts, j)
  }

  /** A block changed in word i only. */
  ghost predicate OnlyWord(b0: seq<Byte>, b: seq<Byte>, i: nat) {
    |b| == |b0| && forall k :: 0 <= k < |b| && !(WORD * i <= k < WORD * i + WORD) ==> b[k] == b0[k]
  }

  lemma OthersSame(big: bool, b0: seq<Byte>, b: seq<Byte>, texts: seq<seq<Byte>>, base: nat, i: nat, j: nat)
    requires j < |texts| && i <= |texts| && OnlyWord(b0, b, i)
    ensures j != i && PackedAt(b0, texts, j) ==> PackedAt(b, texts, j)
    ensures j != i && PointedAt(big, b0, texts, base, j) ==> PointedAt(big, b, texts, base, j)
    ensures HasText(b0, Offset(texts, j), texts[j]) ==> HasText(b, Offset(texts, j), texts[j])
  {
    hide Number, Room, Offset;
    OffsetBounds(texts, j);
    if HasText(b0, Offset(texts, j), texts[j]) {
      TextSame(b0, b, Offset(texts, j), texts[j]);
    }
  }

  lemma NowPointed(big: bool, b0: seq<Byte>, b: seq<Byte>, texts: seq<seq<Byte>>, base: nat, i: nat)
    requires i < |texts| && PackedAt(b0, texts, i) && OnlyWord(b0, b, i) && WORD * i + WORD <= |b|
    requires Word(big, b, WORD * i) == (base + Offset(texts, i)) % 0x1_0000_0000
    ensures PointedAt(big, b, texts, base, i)
  {
    hide Offset, HasText, OnlyWord, Number;
    OthersSame(big, b0, b, texts, base, i, i);
  }

  lemma RelocateNext(big: bool, b0: seq<Byte>, b: seq<Byte>, texts: seq<seq<Byte>>, base: nat, i: nat)
    requires i < |texts| && Relocated(big, b0, texts, base, i) && OnlyWord(b0, b, i) && WORD * i + WORD <= |b|
    requires Word(big, b, WORD * i) == (base + Offset(texts, i)) % 0x1_0000_0000
    ensures Relocated(big, b, texts, base, i + 1)
  {
    hide Offset, OnlyWord, PackedAt, PointedAt;
    assert PackedAt(b0, texts, i);
    NowPointed(big, b0, b, texts, base, i);
    forall j | 0 <= j < i
      ensures PointedAt(big, b, texts, base, j)
    {
      OthersSame(big, b0, b, texts, base, i, j);
    }
    forall j | i < j < |texts|
      ensures PackedAt(b, texts, j)
    {
      OthersSame(big, b0, b, texts, base, i, j);
    }
  }

  /** The string at a place, up to its terminator. */
  function StringAt(b: seq<Byte>, k: nat): seq<Byte>
    decreases |b| - k
  {
    if k >= |b| || b[k] == 0 then [] else [b[k]] + StringAt(b, k + 1)
  }

  lemma {:induction false} ReadText(b: seq<Byte>, k: nat, t: seq<Byte>)
    requires HasText(b, k, t) && forall i :: 0 <= i < |t| ==> t[i] != 0
    ensures StringAt(b, k) == t
    decreases |t|
  {
    if t != [] {
      assert b[k] == t[0];
      assert b[k + 1..k + 1 + |t[1..]|] == b[k..k + |t|][1..];
      ReadText(b, k + 1, t[1..]);
    }
  }

  /** The string at an address, in a block at address base; nothing is known of what lies before it. */
  function StringFrom(b: seq<Byte>, base: nat, a: nat): seq<Byte> {
    if a < base then [] else StringAt(b, a - base)
  }

  /** The arguments as a program finds them: the strings that the words from i on point to, up to a
      null word. */
  function ReadArgv(big: bool, b: seq<Byte>, base: nat, i: nat): seq<seq<Byte>>
    decreases |b| - i
  {
    if WORD * i + WORD > |b| || Word(big, b, WORD * i) == 0 then []
    else [StringFrom(b, base, Word(big, b, WORD * i))] + ReadArgv(big, b, base, i + 1)
  }

  lemma ReadOne(big: bool, b: seq<Byte>, texts: seq<seq<Byte>>, base: nat, i: nat)
    requires i < |texts| && PointedAt(big, b, texts, base, i) && base + |b| <= 0x1_0000_0000 && IsText(texts[i])
    ensures WORD * i + WORD <= |b| && Word(big, b, WORD * i) == base + Offset(texts, i)
    ensures StringAt(b, Offset(texts, i)) == texts[i]
  {
    hide Offset, Number;
    ReadText(b, Offset(texts, i), texts[i]);
  }

  lemma {:induction false} ReadBack(big: bool, b: seq<Byte>, texts: seq<seq<Byte>>, base: nat, i: nat)
    requires i <= |texts| && Relocated(big, b, texts, base, |texts|) && 0 < base && base + |b| <= 0x1_0000_0000
    requires WORD * |texts| + WORD <= |b| && Word(big, b, WORD * |texts|) == 0
    requires forall j :: 0 <= j < |texts| ==> IsText(texts[j])
    ensures ReadArgv(big, b, base, i) == texts[i..]
    decreases |texts| - i
  {
    hide Offset, Word, PointedAt, StringAt, IsText;
    if i < |texts| {
      ReadOne(big, b, texts, base, i);
      ReadBack(big, b, texts, base, i + 1);
      assert texts[i..] == [texts[i]] + texts[i + 1..];
    }
  }

  /** The buffer beyond the block does not matter. */
  lemma CutOff(big: bool, b: seq<Byte>, texts: seq<seq<Byte>>, base: nat, n: nat)
    requires Relocated(big, b, texts, base, |texts|) && n == Offset(texts, |texts|) <= |b|
    requires WORD * |texts| + WORD <= |b| && LittleWord(b, WORD * |texts|) == 0
    ensures Relocated(big, b[..n], texts, base, |texts|)
    ensures WORD * |texts| + WORD <= n && Word(big, b[..n], WORD * |texts|) == 0
  {
    hide Number, Room, Offset;
    OffsetBounds(texts, |texts|);
    NullEitherWay(b[..n], WORD * |texts|) by {
      assert LittleWord(b[..n], WORD * |texts|) == 0;
    }
    forall j | 0 <= j < |texts|
      ensures PointedAt(big, b[..n], texts, base, j)
    {
      assert PointedAt(big, b, texts, base, j);
      OffsetsRise(texts, j, |texts|);
      RoomEnough(texts[j]);
      assert b[..n][Offset(texts, j)..Offset(texts, j) + |texts[j]|] == b[Offset(texts, j)..Offset(texts, j) + |texts[j]|];
    }
  }

  lemma NullEitherWay(b: seq<Byte>, k: nat)
    requires k + WORD <= |b| && LittleWord(b, k) == 0
    ensures BigWord(b, k) == 0
  {
  }

  lemma SameWord(b0: seq<Byte>, b: seq<Byte>, k: nat)
    requires k + WORD <= |b0| == |b| && forall j :: k <= j < k + WORD ==> b[j] == b0[j]
    ensures LittleWord(b, k) == LittleWord(b0, k)
  {
  }

  lemma AllRelocatable(big: bool, b: seq<Byte>, texts: seq<seq<Byte>>, base: nat)
    requires Packed(b, texts, |texts|)
    ensures Relocated(big, b, texts, base, 0)
  {
  }

  lemma TextsSane(user: seq<Fetched>, texts: seq<seq<Byte>>)
    requires Sane(user) && ScanFrom(user, 0) == Found(texts)
    ensures forall j :: 0 <= j < |texts| ==> IsText(texts[j])
  {
    hide IsText;
    forall j | 0 <= j < |texts|
      ensures IsText(texts[j])
    {
      ScanAt(user, j, texts);
      SaneText(user, j);
    }
  }

  class Buffers {
    const karg: array<Byte>
    const kargbuf: array<Byte>

    ghost predicate Valid() {
      karg.Length == BUFFER && kargbuf.Length == BUFFER && karg != kargbuf
    }

    constructor ()
      ensures Valid() && fresh(karg) && fresh(kargbuf)
    {
      karg := new Byte[BUFFER];
      kargbuf := new Byte[BUFFER];
    }

    /** copyinstr, when it succeeds. */
    method CopyIn(t: seq<Byte>)
      requires Valid() && IsText(t)
      modifies karg
      ensures HasText(karg[..], 0, t)
    {
      for i := 0 to |t|
        invariant karg[..i] == t[..i]
      {
        karg[i] := t[i];
      }
      karg[|t|] := 0;
      assert karg[..][0..|t|] == t;
    }

    method StringLength(ghost t: seq<Byte>) returns (len: nat)
      requires Valid() && IsText(t) && HasText(karg[..], 0, t)
      ensures len == |t|
    {
      len := 0;
      assert forall i :: 0 <= i < |t| ==> karg[i] == karg[..][0..|t|][i];
      while karg[len] != 0
        invariant len <= |t|
        decreases |t| - len
      {
        len := len + 1;
      }
    }

    /** The length of the string in karg with its terminator, rounded up. */
    method GetAlignedLength(ghost t: seq<Byte>) returns (len: nat)
      requires Valid() && IsText(t) && HasText(karg[..], 0, t)
      ensures len == Room(t)
    {
      len := StringLength(t);
      len := len + 1;
      if len % 4 == 0 {
        return;
      }
      len := len + (WORD - len % WORD);
    }

    /** The same, padding the string on the way; the first byte after the terminator is left out, and
        one after the padding is written instead. Not ok if that is outside the buffer. */
    method AlignArg(ghost t: seq<Byte>) returns (len: nat, ok: bool)
      requires Valid() && IsText(t) && HasText(karg[..], 0, t)
      modifies karg
      ensures ok <==> PadFits(t)
      ensures ok ==> len == Room(t) && HasText(karg[..], 0, t)
    {
      len := StringLength(t);
      ok := true;
      var p := len + 1;
      len := len + 1;
      if len % WORD == 0 {
        return;
      }
      var diff := WORD - len % WORD;
      assert (|t| + 1) % WORD != 0 && Room(t) == |t| + 1 + diff;
      while diff > 0
        invariant diff >= 0 && len + diff == Room(t) && p == len && |t| + 1 <= len && ok && (diff == 0 ==> p < BUFFER)
        invariant HasText(karg[..], 0, t)
        decreases diff
      {
        diff := diff - 1;
        p := p + 1;
        if p >= karg.Length {
          return len, false;
        }
        karg[p] := 0;
        len := len + 1;
      }
    }

    /** One argument: its offset goes into word i, and the string to that offset. */
    method PackOne(ghost texts: seq<seq<Byte>>, i: nat, ghost t: seq<Byte>, offset: nat) returns (nlast: nat, ok: bool)
      requires Valid() && i < |texts| && t == texts[i] && IsText(t) && HasText(karg[..], 0, t)
      requires offset == Offset(texts, i) && Packed(kargbuf[..], texts, i) && WORD * (i + 1) <= BUFFER
      modifies karg, kargbuf
      ensures ok <==> PadFits(t) && Offset(texts, i + 1) <= BUFFER
      ensures ok ==> nlast == Room(t) && Packed(kargbuf[..], texts, i + 1)
    {
      hide Packed, HasText, PadFits, Room, LittleWord, Offset;
      OffsetNext(texts, i);
      nlast, ok := AlignArg(t);
      if !ok {
        return;
      }
      ghost var b0 := kargbuf[..];
      PutLittle(WORD * i, offset % 0x1_0000_0000);
      ghost var b1 := kargbuf[..];
      if offset + nlast > kargbuf.Length {
        return nlast, false;
      }
      CopyOut(offset, nlast);
      PackedMore(b0, b1, kargbuf[..], karg[..], texts, i);
    }

    method PutLittle(k: nat, w: nat)
      requires Valid() && k + WORD <= BUFFER && w < 0x1_0000_0000
      modifies kargbuf
      ensures LittleWord(kargbuf[..], k) == w
      ensures forall j :: 0 <= j < BUFFER && !(k <= j < k + WORD) ==> kargbuf[j] == old(kargbuf[j])
    {
      Digits(w);
      kargbuf[k] := Digit(w, 0);
      kargbuf[k + 1] := Digit(w, 1);
      kargbuf[k + 2] := Digit(w, 2);
      kargbuf[k + 3] := Digit(w, 3);
    }

    /** memcpy from karg. */
    method CopyOut(to: nat, n: nat)
      requires Valid() && n <= BUFFER && to + n <= BUFFER
      modifies kargbuf
      ensures forall k :: 0 <= k < BUFFER ==> kargbuf[k] == if to <= k < to + n then karg[k - to] else old(kargbuf[k])
    {
      for j := 0 to n
        invariant forall k :: 0 <= k < BUFFER ==> kargbuf[k] == if to <= k < to + j then karg[k - to] else old(kargbuf[k])
      {
        kargbuf[to + j] := karg[j];
      }
    }

    /** The first pass: counts the arguments and the room they take up. */
    method Measure(user: seq<Fetched>) returns (r: Copied)
      requires Valid() && Sane(user)
      modifies karg
      ensures match r
              case Refused(err) => ScanFrom(user, 0) == Failed(err)
              case Copied(nargs, buflen) =>
                && ScanFrom(user, 0).Found?
                && nargs == |ScanFrom(user, 0).texts| + 1
                && buflen == Offset(ScanFrom(user, 0).texts, |ScanFrom(user, 0).texts|)
              case Overrun => false
    {
      hide IsText, HasText, Offset, Room;
      var i, buflen := 0, 0;
      ghost var texts: seq<seq<Byte>> := [];
      while Fetch(user, i).Text?
        invariant |texts| == i && buflen == Size(texts) + WORD * i
        invariant ScanFrom(user, 0) == Prepend(texts, ScanFrom(user, i))
        decreases |user| - i
      {
        var t := Fetch(user, i).text;
        SaneText(user, i);
        CopyIn(t);
        PrependNext(texts, t, ScanFrom(user, i + 1));
        SizeNext(texts, t);
        texts := texts + [t];
        var len := GetAlignedLength(t);
        i := i + 1;
        buflen := buflen + len + WORD;
      }
      assert texts + [] == texts && texts[..|texts|] == texts;
      OffsetIsSize(texts, |texts|);
      match Fetch(user, i) {
        case Bad(err) => return Refused(err);
        case Unreadable(err) =>
          if i == 0 {
            return Refused(err);
          }
        case _ =>
      }
      r := Copied(i + 1, buflen + WORD);
    }

    /** copy_args. It refuses what it cannot read; what it can read it lays out, unless that would write
        outside the buffers. */
    method CopyArgs(user: seq<Fetched>, isNull: bool) returns (r: Copied)
      requires Valid() && Sane(user)
      modifies karg, kargbuf
      ensures isNull ==> r == Refused(EFAULT)
      ensures !isNull ==> match ScanFrom(user, 0)
                          case Failed(err) => r == Refused(err)
                          case Found(texts) => Laid(r, kargbuf[..], texts)
    {
      hide IsText, HasText, Offset, Room, Packed, PadFits, LittleWord;
      if isNull {
        return Refused(EFAULT);
      }
      r := Measure(user);
      if r.Refused? {
        return;
      }
      ghost var texts := ScanFrom(user, 0).texts;
      var i, nlast, lastOffset, ok := 0, 0, WORD * r.nargs, true;
      NoneYet(kargbuf[..], texts);
      ScanAt(user, 0, texts);
      while Fetch(user, i).Text?
        invariant i <= |texts| && lastOffset + nlast == Offset(texts, i) && Packed(kargbuf[..], texts, i)
        invariant (Fetch(user, i).Text? <==> i < |texts|) && (i < |texts| ==> Fetch(user, i) == Text(texts[i]))
        invariant i > 0 ==> Offset(texts, i) <= BUFFER
        decreases |texts| - i
      {
        SaneText(user, i);
        CopyIn(Fetch(user, i).text);
        ScanAt(user, i + 1, texts);
        OffsetBounds(texts, i);
        var offset := lastOffset + nlast;
        nlast, ok := PackOne(texts, i, texts[i], offset);
        if !ok {
          FitsMeans(texts, i);
          return Overrun;
        }
        OffsetNext(texts, i);
        lastOffset := offset;
        i := i + 1;
      }
      OffsetBounds(texts, i);
      ghost var b := kargbuf[..];
      PutLittle(WORD * i, 0);
      LastWord(b, kargbuf[..], texts);
    }

    /** memcpy of a word from the machine's own memory. */
    method PutWord(big: bool, k: nat, w: nat)
      requires Valid() && k + WORD <= BUFFER && w < 0x1_0000_0000
      modifies kargbuf
      ensures Word(big, kargbuf[..], k) == w
      ensures forall j :: 0 <= j < BUFFER && !(k <= j < k + WORD) ==> kargbuf[j] == old(kargbuf[j])
    {
      Digits(w);
      kargbuf[k] := Digit(w, if big then 3 else 0);
      kargbuf[k + 1] := Digit(w, if big then 2 else 1);
      kargbuf[k + 2] := Digit(w, if big then 1 else 2);
      kargbuf[k + 3] := Digit(w, if big then 0 else 3);
    }

    /** adjust_kargbuf: turns the offsets into pointers. */
    method AdjustKargbuf(big: bool, nparams: nat, stackPtr: nat, ghost texts: seq<seq<Byte>>)
      requires Valid() && nparams == |texts| + 1 && WORD * nparams <= BUFFER && stackPtr < 0x1_0000_0000
      requires Packed(kargbuf[..], texts, |texts|)
      modifies kargbuf
      ensures Relocated(big, kargbuf[..], texts, stackPtr, |texts|)
      ensures LittleWord(kargbuf[..], WORD * |texts|) == old(LittleWord(kargbuf[..], WORD * |texts|))
    {
      hide HasText, Offset, Word, LittleWord, Packed, Number;
      AllRelocatable(big, kargbuf[..], texts, stackPtr);
      ghost var b0 := kargbuf[..];
      for i := 0 to nparams - 1
        invariant Relocated(big, kargbuf[..], texts, stackPtr, i)
        invariant forall k :: WORD * |texts| <= k < WORD * |texts| + WORD ==> kargbuf[k] == b0[k]
      {
        ghost var b := kargbuf[..];
        var old0 := LittleWord(kargbuf[..], WORD * i);
        assert PackedAt(b, texts, i);
        assert old0 == Offset(texts, i);
        PutWord(big, WORD * i, (stackPtr + old0) % 0x1_0000_0000);
        RelocateNext(big, b, kargbuf[..], texts, stackPtr, i);
      }
      SameWord(b0, kargbuf[..], WORD * |texts|);
    }

    /** What sys_execv does with the arguments: it makes room for the block at the top of the new stack,
        and copies it there. A program that starts with that block finds the arguments that were given. */
    method Marshal(big: bool, user: seq<Fetched>, stackTop: nat) returns (r: Copied, block: seq<Byte>, base: nat)
      requires Valid() && Sane(user) && BUFFER < stackTop <= 0x1_0000_0000
      modifies karg, kargbuf
      ensures r.Copied? <==> ScanFrom(user, 0).Found? && Fits(ScanFrom(user, 0).texts)
      ensures r.Copied? ==>
                && base == stackTop - |block| && |block| % WORD == 0
                && ReadArgv(big, block, base, 0) == ScanFrom(user, 0).texts
                && r.nargs == |ScanFrom(user, 0).texts| + 1
    {
      hide IsText, HasText, Room, Packed, LittleWord, Word, Fits, Relocated, ReadArgv;
      block, base := [], 0;
      r := CopyArgs(user, false);
      if !r.Copied? {
        return;
      }
      ghost var texts := ScanFrom(user, 0).texts;
      ghost var b := kargbuf[..];
      base := stackTop - r.buflen;
      AdjustKargbuf(big, r.nargs, base, texts);
      block := kargbuf[..r.buflen];
      CutOff(big, kargbuf[..], texts, base, r.buflen);
      TextsSane(user, texts);
      ReadBack(big, block, texts, base, 0);
      assert texts[0..] == texts;
    }
  }
}
