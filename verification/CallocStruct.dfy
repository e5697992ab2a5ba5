/**
  rdmem.c: one allocation for a structure and the elements its pointers refer to. The memory is an
  array of bytes that starts at the address `origin`; an element's pointer slot is an offset into the base.
 */
module CallocStruct {
  import opened Basics

  /** One element: its size or -1 for a string, the memory it is copied from, the offset of its pointer. */
  datatype Elm = Elm(size: int, src: seq<Byte>, dst: nat)

  /** sizeof(void *). */
  const SLOT_SIZE: nat := 8

  function StrLen(s: seq<Byte>): (n: nat)
    requires 0 in s
    ensures n < |s| && s[n] == 0 && forall k :: 0 <= k < n ==> s[k] != 0
  {
    if s[0] == 0 then 0 else 1 + StrLen(s[1..])
  }

  /** The source's memory covers the element: a NUL within it for a string, the given size otherwise. */
  predicate Readable(e: Elm) {
    if e.size == -1 then 0 in e.src else 0 <= e.size <= |e.src|
  }

  /** What there is to copy of an element: a string up to its first NUL and with it, else the given size. */
  predicate IsLength(e: Elm, n: nat) {
    n <= |e.src| &&
    if e.size == -1 then n > 0 && e.src[n - 1] == 0 && forall k :: 0 <= k < n - 1 ==> e.src[k] != 0
    else n == e.size
  }

  function SizeOf(e: Elm): (n: nat)
    requires Readable(e)
    ensures IsLength(e, n) && n <= |e.src|
  {
    if e.size == -1 then StrLen(e.src) + 1 else e.size
  }

  predicate AllReadable(elms: seq<Elm>) {
    forall e :: e in elms ==> Readable(e)
  }

  function Total(elms: seq<Elm>): nat
    requires AllReadable(elms)
  {
    if elms == [] then 0 else Total(elms[..|elms| - 1]) + SizeOf(elms[|elms| - 1])
  }

  /** Pointer slots lie inside the base and do not overlap. */
  predicate SlotsApart(base: nat, elms: seq<Elm>) {
    (forall e :: e in elms ==> e.dst + SLOT_SIZE <= base) &&
    forall i, j :: 0 <= i < j < |elms| ==>
      elms[i].dst + SLOT_SIZE <= elms[j].dst || elms[j].dst + SLOT_SIZE <= elms[i].dst
  }

  lemma {:induction false} TotalGrows(elms: seq<Elm>, i: nat, j: nat)
    requires AllReadable(elms) && i <= j <= |elms|
    ensures AllReadable(elms[..i]) && AllReadable(elms[..j])
    ensures Total(elms[..i]) <= Total(elms[..j])
    ensures i < j ==> Total(elms[..i]) + SizeOf(elms[i]) <= Total(elms[..j])
    decreases j - i
  {
    assert forall e :: (e in elms[..i] ==> e in elms) && (e in elms[..j] ==> e in elms);
    if i < j {
      assert forall e :: e in elms[..i + 1] ==> e in elms;
      assert elms[..i + 1][..i] == elms[..i];
      TotalGrows(elms, i + 1, j);
    }
  }

  /** Where element i goes. */
  function Start(base: nat, elms: seq<Elm>, i: nat): nat
    requires AllReadable(elms) && i <= |elms|
  {
    TotalGrows(elms, i, |elms|);
    base + Total(elms[..i])
  }

  lemma StartSteps(base: nat, elms: seq<Elm>, i: nat)
    requires AllReadable(elms) && i < |elms|
    ensures Start(base, elms, i + 1) == Start(base, elms, i) + SizeOf(elms[i])
    ensures Start(base, elms, 0) == base && Start(base, elms, |elms|) == base + Total(elms)
  {
    TotalGrows(elms, i, i + 1);
    TotalGrows(elms, i + 1, |elms|);
    assert elms[..i + 1][..i] == elms[..i] && elms[..|elms|] == elms;
  }

  lemma StartMonotone(base: nat, elms: seq<Elm>, i: nat, j: nat)
    requires AllReadable(elms) && i <= j <= |elms|
    ensures base <= Start(base, elms, i) <= Start(base, elms, j) <= base + Total(elms)
    ensures i < j ==> Start(base, elms, i) + SizeOf(elms[i]) <= Start(base, elms, j)
  {
    TotalGrows(elms, 0, i);
    TotalGrows(elms, i, j);
    TotalGrows(elms, j, |elms|);
    assert elms[..|elms|] == elms;
  }

  predicate Within(base: nat, elms: seq<Elm>, i: nat, a: nat)
    requires AllReadable(elms) && i < |elms|
  {
    Start(base, elms, i) <= a < Start(base, elms, i) + SizeOf(elms[i])
  }

  lemma {:induction false} Covered(base: nat, elms: seq<Elm>, a: nat, n: nat) returns (i: nat)
    requires AllReadable(elms) && 1 <= n <= |elms| && base <= a < Start(base, elms, n)
    ensures i < n && Within(base, elms, i, a)
    decreases n
  {
    StartSteps(base, elms, n - 1);
    if n > 1 && a < Start(base, elms, n - 1) {
      i := Covered(base, elms, a, n - 1);
    } else {
      i := n - 1;
    }
  }

  /** The regions of the elements tile the memory behind the base: each address is in exactly one. */
  lemma RegionsTile(base: nat, elms: seq<Elm>, a: nat)
    requires AllReadable(elms)
    ensures base <= a < base + Total(elms) <==> exists i :: 0 <= i < |elms| && Within(base, elms, i, a)
    ensures forall i, j :: 0 <= i < j < |elms| ==> !(Within(base, elms, i, a) && Within(base, elms, j, a))
  {
    assert elms[..|elms|] == elms;
    if base <= a < base + Total(elms) {
      var i := Covered(base, elms, a, |elms|);
    }
    forall i | 0 <= i < |elms| && Within(base, elms, i, a) ensures base <= a < base + Total(elms) {
      StartMonotone(base, elms, i, i + 1);
    }
    forall i, j | 0 <= i < j < |elms| ensures !(Within(base, elms, i, a) && Within(base, elms, j, a)) {
      StartMonotone(base, elms, i, j);
    }
  }

  // ---------- Pointers in memory ----------

  /** A pointer as it is stored, least significant byte first. */
  function LeBytes(a: nat, n: nat): (bytes: seq<Byte>)
    ensures |bytes| == n
    decreases n
  {
    if n == 0 then [] else [(a % 256) as Byte] + LeBytes(a / 256, n - 1)
  }

  function LeValue(bytes: seq<Byte>): nat {
    if bytes == [] then 0 else bytes[0] as nat + 256 * LeValue(bytes[1..])
  }

  function Pow256(n: nat): nat {
    if n == 0 then 1 else 256 * Pow256(n - 1)
  }

  lemma {:induction false} StoredPointerReads(a: nat, n: nat)
    requires a < Pow256(n)
    ensures LeValue(LeBytes(a, n)) == a
    decreases n
  {
    if n > 0 {
      StoredPointerReads(a / 256, n - 1);
      assert LeBytes(a, n)[1..] == LeBytes(a / 256, n - 1);
    }
  }

  lemma EightBytes(bytes: seq<Byte>)
    requires |bytes| == 8
    ensures LeValue(bytes) == bytes[0] as nat + 0x100 * bytes[1] as nat + 0x1_0000 * bytes[2] as nat
      + 0x100_0000 * bytes[3] as nat + 0x1_0000_0000 * bytes[4] as nat + 0x100_0000_0000 * bytes[5] as nat
      + 0x1_0000_0000_0000 * bytes[6] as nat + 0x100_0000_0000_0000 * bytes[7] as nat
  {
    assert bytes[0..] == bytes;
    for k := 0 to 8
      invariant forall i :: 0 <= i < k ==> LeValue(bytes[i..]) == bytes[i] as nat + 256 * LeValue(bytes[i + 1..])
    {
      assert bytes[k..][0] == bytes[k] && bytes[k..][1..] == bytes[k + 1..];
    }
    assert LeValue(bytes[8..]) == 0;
    hide LeValue;
  }

  // ---------- rd_calloc_struct0 ----------

  /** The element's pointer addresses its region, which holds an exact copy of its source. */
  predicate PlacedAt(e: Elm, start: nat, origin: nat, mem: seq<Byte>)
    requires Readable(e)
  {
    e.dst + SLOT_SIZE <= |mem| && start + SizeOf(e) <= |mem| &&
    LeValue(mem[e.dst..e.dst + SLOT_SIZE]) == origin + start &&
    mem[start..start + SizeOf(e)] == e.src[..SizeOf(e)]
  }

  ghost predicate InSlot(elms: seq<Elm>, n: nat, a: nat)
    requires n <= |elms|
  {
    exists i :: 0 <= i < n && elms[i].dst <= a < elms[i].dst + SLOT_SIZE
  }

  /** The first n elements are in place and the rest of the base is zero. */
  ghost predicate Placed(base: nat, elms: seq<Elm>, n: nat, origin: nat, mem: seq<Byte>)
    requires AllReadable(elms)
  {
    n <= |elms| && |mem| == base + Total(elms) &&
    (forall i :: 0 <= i < n ==> PlacedAt(elms[i], Start(base, elms, i), origin, mem)) &&
    forall a :: 0 <= a < base && !InSlot(elms, n, a) ==> mem[a] == 0
  }

  /** mem is was except for one slot and what follows from start on. */
  predicate SameBut(was: seq<Byte>, mem: seq<Byte>, slot: nat, start: nat) {
    slot + SLOT_SIZE <= start <= |mem| == |was| &&
    mem[..slot] == was[..slot] && mem[slot + SLOT_SIZE..start] == was[slot + SLOT_SIZE..start]
  }

  lemma SameSlice(was: seq<Byte>, mem: seq<Byte>, slot: nat, start: nat, lo: nat, hi: nat)
    requires SameBut(was, mem, slot, start) && lo <= hi && (hi <= slot || (slot + SLOT_SIZE <= lo && hi <= start))
    ensures mem[lo..hi] == was[lo..hi]
  {
    forall k | lo <= k < hi ensures mem[k] == was[k] {
      if hi <= slot {
        assert mem[..slot][k] == was[..slot][k];
      } else {
        var u, v := mem[slot + SLOT_SIZE..start], was[slot + SLOT_SIZE..start];
        assert u[k - slot - SLOT_SIZE] == mem[k] && v[k - slot - SLOT_SIZE] == was[k];
      }
    }
  }

  lemma StaysPlaced(e: Elm, s: nat, origin: nat, was: seq<Byte>, mem: seq<Byte>, base: nat, slot: nat, start: nat)
    requires Readable(e) && PlacedAt(e, s, origin, was) && SameBut(was, mem, slot, start)
    requires e.dst + SLOT_SIZE <= slot || slot + SLOT_SIZE <= e.dst
    requires e.dst + SLOT_SIZE <= base <= s && slot + SLOT_SIZE <= base && s + SizeOf(e) <= start
    ensures PlacedAt(e, s, origin, mem)
  {
    hide SizeOf, LeValue;
    SameSlice(was, mem, slot, start, e.dst, e.dst + SLOT_SIZE);
    SameSlice(was, mem, slot, start, s, s + SizeOf(e));
  }

  lemma SlotGrows(elms: seq<Elm>, n: nat, a: nat)
    requires n < |elms| && !InSlot(elms, n + 1, a)
    ensures !InSlot(elms, n, a) && !(elms[n].dst <= a < elms[n].dst + SLOT_SIZE)
  {
  }

  lemma PlaceNext(base: nat, elms: seq<Elm>, n: nat, origin: nat, was: seq<Byte>, mem: seq<Byte>)
    requires AllReadable(elms) && SlotsApart(base, elms) && n < |elms| && Placed(base, elms, n, origin, was)
    requires PlacedAt(elms[n], Start(base, elms, n), origin, mem)
    requires base <= Start(base, elms, n) && SameBut(was, mem, elms[n].dst, Start(base, elms, n))
    ensures Placed(base, elms, n + 1, origin, mem)
  {
    hide Total, SizeOf, Start, PlacedAt, SameBut, InSlot;
    var slot, start := elms[n].dst, Start(base, elms, n);
    forall i | 0 <= i < n ensures PlacedAt(elms[i], Start(base, elms, i), origin, mem) {
      StartMonotone(base, elms, i, n);
      StaysPlaced(elms[i], Start(base, elms, i), origin, was, mem, base, slot, start);
    }
    forall a | 0 <= a < base && !InSlot(elms, n + 1, a) ensures |mem| == |was| && mem[a] == 0 {
      SlotGrows(elms, n, a);
      SameLength(was, mem, slot, start);
      SameSlice(was, mem, slot, start, a, a + 1);
      assert mem[a..a + 1][0] == was[a..a + 1][0];
    }
    SameLength(was, mem, slot, start);
  }

  lemma SameLength(was: seq<Byte>, mem: seq<Byte>, slot: nat, start: nat)
    requires SameBut(was, mem, slot, start)
    ensures |mem| == |was| && slot + SLOT_SIZE <= start <= |mem|
  {
  }

  function Sum(ns: seq<nat>): nat {
    if ns == [] then 0 else Sum(ns[..|ns| - 1]) + ns[|ns| - 1]
  }

  ghost function Sizes(elms: seq<Elm>): (ns: seq<nat>)
    requires AllReadable(elms)
    ensures |ns| == |elms| && forall k :: 0 <= k < |elms| ==> ns[k] == SizeOf(elms[k]) && IsLength(elms[k], ns[k])
  {
    seq(|elms|, k requires 0 <= k < |elms| => SizeOf(elms[k]))
  }

  lemma {:induction false} TotalIsSum(elms: seq<Elm>)
    requires AllReadable(elms)
    ensures Total(elms) == Sum(Sizes(elms))
    decreases |elms|
  {
    if elms != [] {
      var front := elms[..|elms| - 1];
      TotalIsSum(front);
      assert Sizes(elms)[..|elms| - 1] == Sizes(front);
    }
  }

  lemma StartIsSum(base: nat, elms: seq<Elm>, k: nat)
    requires AllReadable(elms) && k <= |elms|
    ensures Start(base, elms, k) == base + Sum(Sizes(elms)[..k])
  {
    assert forall e :: e in elms[..k] ==> e in elms;
    TotalIsSum(elms[..k]);
    assert Sizes(elms)[..k] == Sizes(elms[..k]);
  }

  /** The element's pointer holds the address of the offset at, where its n bytes have been copied to. */
  predicate Copied(e: Elm, n: nat, at: nat, origin: nat, mem: seq<Byte>) {
    && e.dst + SLOT_SIZE <= |mem| && LeValue(mem[e.dst..e.dst + SLOT_SIZE]) == origin + at
    && at + n <= |mem| && n <= |e.src| && mem[at..at + n] == e.src[..n]
  }

  ghost predicate AllCopied(base: nat, elms: seq<Elm>, sizes: seq<nat>, origin: nat, mem: seq<Byte>) {
    |sizes| == |elms| &&
    forall k :: 0 <= k < |elms| ==> Copied(elms[k], sizes[k], base + Sum(sizes[..k]), origin, mem)
  }

  ghost predicate AreLengths(elms: seq<Elm>, sizes: seq<nat>) {
    |sizes| == |elms| && forall k :: 0 <= k < |elms| ==> IsLength(elms[k], sizes[k])
  }

  lemma SizesAreLengths(elms: seq<Elm>)
    requires AllReadable(elms)
    ensures AreLengths(elms, Sizes(elms))
  {
    hide IsLength, SizeOf;
  }

  lemma OneCopied(base: nat, elms: seq<Elm>, k: nat, origin: nat, mem: seq<Byte>)
    requires AllReadable(elms) && k < |elms| && PlacedAt(elms[k], Start(base, elms, k), origin, mem)
    ensures Copied(elms[k], Sizes(elms)[k], base + Sum(Sizes(elms)[..k]), origin, mem)
  {
    hide Start, Sum, LeValue, SizeOf, IsLength;
    StartIsSum(base, elms, k);
  }

  lemma PlacedIsCopied(base: nat, elms: seq<Elm>, origin: nat, mem: seq<Byte>)
    requires AllReadable(elms) && Placed(base, elms, |elms|, origin, mem)
    ensures AllCopied(base, elms, Sizes(elms), origin, mem)
    ensures |mem| >= base && forall a :: 0 <= a < base && !InSlot(elms, |elms|, a) ==> mem[a] == 0
  {
    hide Start, Sum, SizeOf, PlacedAt, Copied, IsLength, InSlot;
    forall k | 0 <= k < |elms| ensures Copied(elms[k], Sizes(elms)[k], base + Sum(Sizes(elms)[..k]), origin, mem) {
      OneCopied(base, elms, k, origin, mem);
    }
  }

  /**
    rd_calloc_struct0, given the address that calloc returns: the second pass fills exactly what the
    first one sized. With nothing to copy it is left out, and every pointer stays null.
   */
  method AllocStruct(base: nat, elms: seq<Elm>, origin: nat)
      returns (mem: array<Byte>, ghost sizes: seq<nat>)
    requires AllReadable(elms) && SlotsApart(base, elms)
    requires origin + base + Total(elms) < Pow256(SLOT_SIZE)
    ensures AreLengths(elms, sizes) && fresh(mem) && mem.Length == base + Sum(sizes)
    ensures Sum(sizes) == 0 ==> forall a :: 0 <= a < base ==> mem[a] == 0
    ensures Sum(sizes) != 0 ==> AllCopied(base, elms, sizes, origin, mem[..])
    ensures forall a :: 0 <= a < base && !InSlot(elms, |elms|, a) ==> mem[a] == 0
  {
    sizes := Sizes(elms);
    hide *;
    SizesAreLengths(elms);
    TotalIsSum(elms);
    var tot := SizePass(base, elms);
    mem := new Byte[tot](_ => 0);
    if tot == base {
      return;
    }
    CopyPass(mem, base, elms, origin);
    PlacedIsCopied(base, elms, origin, mem[..]);
  }

  /** Pass 1: the sizes. */
  method SizePass(base: nat, elms: seq<Elm>) returns (tot: nat)
    requires AllReadable(elms) && SlotsApart(base, elms)
    ensures tot == base + Total(elms)
  {
    hide *;
    tot := base;
    var k := 0;
    StartEnds(base, elms);
    while k < |elms|
      invariant k <= |elms| && tot == Start(base, elms, k)
    {
      Measured(base, elms, k);
      StartSteps(base, elms, k);
      tot := tot + SizeOf(elms[k]);
      k := k + 1;
    }
  }

  /** Pass 2: the pointers and the copies. */
  method CopyPass(mem: array<Byte>, base: nat, elms: seq<Elm>, origin: nat)
    requires AllReadable(elms) && SlotsApart(base, elms) && mem.Length == base + Total(elms)
    requires origin + base + Total(elms) < Pow256(SLOT_SIZE) && forall a :: 0 <= a < mem.Length ==> mem[a] == 0
    modifies mem
    ensures Placed(base, elms, |elms|, origin, mem[..])
  {
    hide *;
    StartEnds(base, elms);
    var tail, k := base, 0;
    NonePlaced(base, elms, origin, mem[..]);
    while k < |elms|
      invariant k <= |elms| && tail == Start(base, elms, k) && tail <= mem.Length == base + Total(elms)
      invariant Placed(base, elms, k, origin, mem[..]) && base <= tail
    {
      Measured(base, elms, k);
      StartSteps(base, elms, k);
      StartMonotone(base, elms, k, k + 1);
      StartMonotone(base, elms, k + 1, |elms|);
      var size := SizeOf(elms[k]);
      ghost var was := mem[..];
      StorePointer(mem, elms[k].dst, origin + tail, tail);
      ghost var pointed := mem[..];
      CopyIn(mem, tail, elms[k].src, size);
      NowPlaced(elms[k], tail, origin, was, pointed, mem[..]);
      PlaceNext(base, elms, k, origin, was, mem[..]);
      tail := tail + size;
      k := k + 1;
    }
  }

  lemma StartEnds(base: nat, elms: seq<Elm>)
    requires AllReadable(elms)
    ensures Start(base, elms, 0) == base && Start(base, elms, |elms|) == base + Total(elms)
  {
    assert elms[..|elms|] == elms;
  }

  lemma Measured(base: nat, elms: seq<Elm>, k: nat)
    requires AllReadable(elms) && SlotsApart(base, elms) && k < |elms|
    ensures Readable(elms[k]) && elms[k].dst + SLOT_SIZE <= base && SizeOf(elms[k]) <= |elms[k].src|
  {
  }

  lemma NonePlaced(base: nat, elms: seq<Elm>, origin: nat, mem: seq<Byte>)
    requires AllReadable(elms) && |mem| == base + Total(elms) && forall a :: 0 <= a < |mem| ==> mem[a] == 0
    ensures Placed(base, elms, 0, origin, mem)
  {
  }

  lemma NowPlaced(e: Elm, start: nat, origin: nat, was: seq<Byte>, pointed: seq<Byte>, mem: seq<Byte>)
    requires Readable(e) && e.dst + SLOT_SIZE <= start && start + SizeOf(e) <= |mem| == |pointed| == |was|
    requires origin + start < Pow256(SLOT_SIZE)
    requires pointed[..start] == was[..e.dst] + LeBytes(origin + start, SLOT_SIZE) + was[e.dst + SLOT_SIZE..start]
    requires mem[..start] == pointed[..start] && mem[start..start + SizeOf(e)] == e.src[..SizeOf(e)]
    ensures PlacedAt(e, start, origin, mem) && SameBut(was, mem, e.dst, start)
  {
    hide SizeOf, LeBytes, LeValue, Pow256;
    StoredPointerReads(origin + start, SLOT_SIZE);
    var d := e.dst;
    assert mem[d..d + SLOT_SIZE] == mem[..start][d..d + SLOT_SIZE] == LeBytes(origin + start, SLOT_SIZE);
    assert mem[..d] == mem[..start][..d] == was[..d];
    assert mem[d + SLOT_SIZE..start] == mem[..start][d + SLOT_SIZE..];
  }

  /** The store of a pointer into its slot, below until. */
  method StorePointer(mem: array<Byte>, at: nat, address: nat, ghost until: nat)
    requires at + SLOT_SIZE <= until <= mem.Length
    modifies mem
    ensures mem[..until] == old(mem[..])[..at] + LeBytes(address, SLOT_SIZE) + old(mem[..])[at + SLOT_SIZE..until]
    ensures mem[until..] == old(mem[..])[until..]
  {
    hide *;
    var bytes := LeBytes(address, SLOT_SIZE);
    ghost var was := mem[..];
    StoreBytes(mem, at, bytes);
    Overwritten(was, mem[..], at, bytes, until);
  }

  method StoreBytes(mem: array<Byte>, at: nat, bytes: seq<Byte>)
    requires at + |bytes| <= mem.Length
    modifies mem
    ensures forall i :: 0 <= i < |bytes| ==> mem[at + i] == bytes[i]
    ensures forall i :: 0 <= i < mem.Length && !(at <= i < at + |bytes|) ==> mem[i] == old(mem[i])
  {
    for k := 0 to |bytes|
      invariant forall i :: 0 <= i < k ==> mem[at + i] == bytes[i]
      invariant forall i :: 0 <= i < mem.Length && !(at <= i < at + k) ==> mem[i] == old(mem[i])
    {
      mem[at + k] := bytes[k];
    }
  }

  lemma Overwritten(was: seq<Byte>, mem: seq<Byte>, at: nat, bytes: seq<Byte>, until: nat)
    requires |bytes| == SLOT_SIZE && at + SLOT_SIZE <= until <= |mem| == |was|
    requires forall i :: 0 <= i < SLOT_SIZE ==> mem[at + i] == bytes[i]
    requires forall i :: 0 <= i < |mem| && !(at <= i < at + SLOT_SIZE) ==> mem[i] == was[i]
    ensures mem[..until] == was[..at] + bytes + was[at + SLOT_SIZE..until] && mem[until..] == was[until..]
  {
    assert mem[at..at + SLOT_SIZE] == bytes;
    assert mem[..until] == mem[..at] + mem[at..at + SLOT_SIZE] + mem[at + SLOT_SIZE..until];
  }

  /** memcpy into the tail. */
  method CopyIn(mem: array<Byte>, at: nat, src: seq<Byte>, n: nat)
    requires n <= |src| && at + n <= mem.Length
    modifies mem
    ensures mem[..at] == old(mem[..at]) && mem[at..at + n] == src[..n] && mem[at + n..] == old(mem[at + n..])
  {
    for k := 0 to n
      invariant mem[..at] == old(mem[..at]) && mem[at..at + k] == src[..k]
      invariant forall i :: at + k <= i < mem.Length ==> mem[i] == old(mem[i])
    {
      mem[at + k] := src[k];
    }
  }
}
