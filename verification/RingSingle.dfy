/** The ring driven by one producer and one consumer, with the copy loops as the macros
    write them: four slots at a time, a fall-through tail, and a split at the wrap. */
module RingSingle {
  import opened Bits
  import opened RingProtocol
  import opened RingTheorems

  /** `before` with `objs` written at ring positions head, head+1, ... modulo the size. */
  function Put(before: seq<Ptr>, head: int, objs: seq<Ptr>): (after: seq<Ptr>)
    requires |before| > 0
    ensures |after| == |before|
  {
    seq(|before|, i requires 0 <= i < |before| =>
      var k := Pos(i - head, |before|);
      if k < |objs| then objs[k] else before[i])
  }

  /** The n objects at ring positions head, head+1, ... modulo the size. */
  function Get(ring: seq<Ptr>, head: int, n: nat): (objs: seq<Ptr>)
    requires |ring| > 0
    ensures |objs| == n
  {
    seq(n, k requires 0 <= k < n => ring[Pos(head + k, |ring|)])
  }

  /** Positions relative to a head are unique modulo the size. */
  lemma Offset(size: nat, head: int, k: int)
    requires 0 <= k < size
    ensures Pos(Pos(head + k, size) - head, size) == k
  {
    var q := (head + k) / size;
    assert head + k == size * q + (head + k) % size;
    assert (head + k) % size - head == size * -q + k by {
      assert size * -q == -(size * q);
    }
    ModUnique((head + k) % size - head, size, -q, k);
  }

  lemma Shift(x: int, size: nat)
    requires size > 0
    ensures Pos(x + size, size) == Pos(x, size)
  {
    assert size * (x / size + 1) == size * (x / size) + size;
    ModUnique(x + size, size, x / size + 1, x % size);
  }

  lemma SameResidue(a: int, b: int, k: int, m: nat)
    requires m > 0 && Pos(a, m) == Pos(b, m)
    ensures Pos(a + k, m) == Pos(b + k, m) && Pos(k - a, m) == Pos(k - b, m)
  {
    var d := a / m - b / m;
    assert a - b == m * d by {
      assert a == m * (a / m) + a % m && b == m * (b / m) + b % m;
      assert m * d == m * (a / m) - m * (b / m);
    }
    AddMultiple(b + k, d, m);
    assert m * -d == -(m * d);
    AddMultiple(k - b, -d, m);
  }

  lemma AddMultiple(x: int, d: int, m: nat)
    requires m > 0
    ensures Pos(x + m * d, m) == Pos(x, m)
  {
    assert m * (x / m + d) == m * (x / m) + m * d;
    ModUnique(x + m * d, m, x / m + d, x % m);
  }

  /** A dequeue from the head of an enqueue returns the same objects, for every head. */
  lemma GetPut(ring: seq<Ptr>, head: int, objs: seq<Ptr>)
    requires 0 < |ring| && |objs| <= |ring|
    ensures Get(Put(ring, head, objs), head, |objs|) == objs
  {
    hide Pos;
    forall k | 0 <= k < |objs|
      ensures Get(Put(ring, head, objs), head, |objs|)[k] == objs[k]
    {
      Offset(|ring|, head, k);
    }
  }

  /** Writing behind a stretch of the ring leaves that stretch alone and extends it. */
  lemma GetBeforePut(ring: seq<Ptr>, head: int, n: nat, objs: seq<Ptr>)
    requires 0 < |ring| && n + |objs| <= |ring|
    ensures Get(Put(ring, head + n, objs), head, n + |objs|) == Get(ring, head, n) + objs
  {
    hide Pos;
    GetPut(ring, head + n, objs);
    var after := Put(ring, head + n, objs);
    forall k | 0 <= k < n + |objs|
      ensures Get(after, head, n + |objs|)[k] == (Get(ring, head, n) + objs)[k]
    {
      if k >= n {
        assert Get(after, head + n, |objs|)[k - n] == objs[k - n];
        assert head + n + (k - n) == head + k;
      } else {
        Offset(|ring|, head + n, k - n + |ring|);
        Shift(head + k, |ring|);
        assert head + n + (k - n + |ring|) == head + k + |ring|;
      }
    }
  }

  /** Reading or writing at a wrapped head is the same as at the unwrapped one. */
  lemma GetMod(ring: seq<Ptr>, head: int, n: nat, head': int)
    requires 0 < |ring| && Pos(head, |ring|) == Pos(head', |ring|)
    ensures Get(ring, head, n) == Get(ring, head', n)
  {
    hide Pos;
    forall k | 0 <= k < n
      ensures Get(ring, head, n)[k] == Get(ring, head', n)[k]
    {
      SameResidue(head, head', k, |ring|);
    }
  }

  lemma PutMod(ring: seq<Ptr>, head: int, objs: seq<Ptr>, head': int)
    requires 0 < |ring| && Pos(head, |ring|) == Pos(head', |ring|)
    ensures Put(ring, head, objs) == Put(ring, head', objs)
  {
    hide Pos;
    forall i | 0 <= i < |ring|
      ensures Put(ring, head, objs)[i] == Put(ring, head', objs)[i]
    {
      SameResidue(head, head', i, |ring|);
    }
  }

  // Differences of wrapped indices count the entries between them.

  lemma AfterEnqueue(tail: nat, head: nat, n: nat)
    requires tail < M32 && head < M32 && U32(head - tail) + n < M32
    ensures U32(U32(head + n) - tail) == U32(head - tail) + n
    ensures U32(tail + U32(head - tail)) == head
  {
    var u := U32(head - tail);
    assert u == if head >= tail then head - tail else head - tail + M32;
    assert U32(head + n) == if head + n < M32 then head + n else head + n - M32;
  }

  lemma AfterDequeue(tail: nat, head: nat, n: nat)
    requires tail < M32 && head < M32 && n <= U32(head - tail)
    ensures U32(head - U32(tail + n)) == U32(head - tail) - n
  {
  }

  lemma FreeEntries(tail: nat, head: nat, mask: nat)
    requires tail < M32 && head < M32 && U32(head - tail) <= mask < M32
    ensures U32(mask + tail - head) == mask - U32(head - tail)
  {
  }

  class RteRing {
    const size: nat
    const mask: nat
    const ring: array<Ptr>
    var watermark: nat
    var prodHead: nat
    var prodTail: nat
    var consHead: nat
    var consTail: nat

    ghost predicate Geometry() {
      IsPow2(size) && 0 < size <= 0x0fffffff && mask == size - 1 && ring.Length == size
    }

    /** Every index is a uint32_t; no call is in flight. */
    ghost predicate Valid()
      reads this
    {
      && Geometry()
      && 0 < watermark <= size
      && prodHead == prodTail < M32 && consHead == consTail < M32
      && U32(prodTail - consTail) <= mask
    }

    function Used(): nat
      reads this
    {
      U32(prodTail - consTail)
    }

    /** What is in the ring, oldest first. */
    ghost function Contents(): (c: seq<Ptr>)
      reads this, ring
      requires Valid()
    {
      Get(ring[..], consTail, Used())
    }

    lemma MaskIsMod(x: nat)
      requires Geometry()
      ensures And(x, mask) == Pos(x, size)
    {
      var k: nat :| k <= size && size == Pow(2, k);
      AndMask(x, k);
    }

    /** The ring that rte_ring_create sets up for a count it accepts. For a power of two it
        is an empty ring; for 0 it is a ring without slots whose mask is 2^32 - 1, so that
        it claims to have 2^32 - 1 free entries. */
    constructor (count: nat)
      requires count == 0 || (IsPow2(count) && count <= 0x0fffffff)
      ensures fresh(ring) && ring.Length == size == count && watermark == count
      ensures count > 0 ==> Valid() && Contents() == []
      ensures count == 0 ==> !Geometry() && U32(mask + consTail - prodHead) == mask == M32 - 1
    {
      size, mask, watermark := count, U32(count - 1), count;
      ring := new Ptr[count];
      prodHead, prodTail, consHead, consTail := 0, 0, 0, 0;
    }

    /** rte_ring_create: NULL for a count that fails the test or is too large. */
    static method Create(count: nat) returns (r: RteRing?)
      requires count < M32
      ensures r == null <==> !(count == 0 || IsPow2(count)) || count > 0x0fffffff
      ensures r != null ==>
        fresh(r) && fresh(r.ring) && r.size == r.watermark == count && (r.Valid() <==> count > 0)
      ensures r != null && count > 0 ==> r.Contents() == []
    {
      PowerOfTwoTest(count);
      if And(U32(count - 1), count) != 0 || count > 0x0fffffff {
        return null;
      }
      r := new RteRing(count);
    }

    /** rte_ring_set_water_mark. */
    method SetWaterMark(count: nat) returns (ok: bool)
      requires Valid()
      modifies `watermark
      ensures Valid() && ok == (count < size)
      ensures watermark == if !ok then old(watermark) else if count == 0 then size else count
    {
      if count >= size {
        return false;
      }
      watermark := if count == 0 then size else count;
      return true;
    }

    /** How far position p lies behind the slot of `head`. */
    lemma Distance(head: nat, p: nat)
      requires Geometry() && p < size
      ensures var start := And(head, mask);
        start < size && Pos(p - head, size) == if start <= p then p - start else p - start + size
    {
      MaskIsMod(head);
      var start := head % size;
      ModUnique(start, size, 0, start);
      SameResidue(head, start, p, size);
      if start <= p {
        ModUnique(p - start, size, 0, p - start);
      } else {
        ModUnique(p - start, size, -1, p - start + size);
      }
    }

    /** The first i objects have been stored from slot `start` on, and nothing else. */
    ghost predicate Stored(was: seq<Ptr>, start: nat, objs: seq<Ptr>, i: nat)
      reads ring
    {
      && ring.Length == |was| && start + i <= |was| && i <= |objs|
      && forall p :: 0 <= p < |was| ==> ring[p] == if start <= p < start + i then objs[p - start] else was[p]
    }

    /** ENQUEUE_PTRS: the unrolled, fall-through and split loops write exactly Put. */
    method EnqueuePtrs(head: nat, objs: seq<Ptr>)
      requires Geometry() && |objs| <= mask
      modifies ring
      ensures ring[..] == Put(old(ring[..]), head, objs)
    {
      hide Pos, And, Put;
      var n := |objs|;
      var idx := And(head, mask);
      MaskIsMod(head);
      PutIsSplit(ring[..], head, objs);
      if idx + n < size {
        var i := StoreBlocks(idx, objs);
        StoreRest(idx, objs, i);
      } else {
        var i := 0;
        ghost var start := idx;
        while idx < size
          invariant 0 <= i <= n && idx == start + i <= size
          invariant Stored(old(ring[..]), start, objs, i)
        {
          ring[idx] := objs[i];
          i, idx := i + 1, idx + 1;
        }
        idx := 0;
        while i < n
          invariant size - start <= i <= n && idx == i - (size - start)
          invariant forall p :: 0 <= p < size ==>
            ring[p] == if start <= p then objs[p - start] else if p < idx then objs[p - start + size] else old(ring[p])
        {
          ring[idx] := objs[i];
          i, idx := i + 1, idx + 1;
        }
      }
    }

    /** The loop over blocks of four. */
    method StoreBlocks(start: nat, objs: seq<Ptr>) returns (i: nat)
      requires Geometry() && start + |objs| < size
      modifies ring
      ensures i == |objs| - |objs| % 4
      ensures Stored(old(ring[..]), start, objs, i)
    {
      var n, idx := |objs|, start;
      i := 0;
      while i < n - n % 4
        invariant 0 <= i <= n - n % 4 && i % 4 == 0 && idx == start + i
        invariant Stored(old(ring[..]), start, objs, i)
      {
        ring[idx] := objs[i];
        ring[idx + 1] := objs[i + 1];
        ring[idx + 2] := objs[i + 2];
        ring[idx + 3] := objs[i + 3];
        i, idx := i + 4, idx + 4;
      }
    }

    /** The fall-through switch over what is left of the last block. */
    method StoreRest(start: nat, objs: seq<Ptr>, from: nat)
      requires Geometry() && start + |objs| < size && from == |objs| - |objs| % 4
      modifies ring
      ensures forall p :: 0 <= p < size ==>
        ring[p] == if start + from <= p < start + |objs| then objs[p - start] else old(ring[p])
    {
      var n, i, idx := |objs|, from, start + from;
      if n % 4 == 3 {
        ring[idx] := objs[i];
        i, idx := i + 1, idx + 1;
      }
      if n % 4 >= 2 {
        ring[idx] := objs[i];
        i, idx := i + 1, idx + 1;
      }
      if n % 4 >= 1 {
        ring[idx] := objs[i];
        i, idx := i + 1, idx + 1;
      }
    }

    /** Put by position: one stretch from the start, wrapping to the front if it is long. */
    lemma PutIsSplit(was: seq<Ptr>, head: nat, objs: seq<Ptr>)
      requires Geometry() && |was| == size && |objs| <= mask
      ensures var start := And(head, mask);
        start < size && forall p :: 0 <= p < size ==>
          Put(was, head, objs)[p] ==
            if start <= p then (if p - start < |objs| then objs[p - start] else was[p])
            else if p - start + size < |objs| then objs[p - start + size] else was[p]
    {
      hide Pos, And;
      Distance(head, 0);
      forall p | 0 <= p < size
        ensures var start := And(head, mask);
          Put(was, head, objs)[p] ==
            if start <= p then (if p - start < |objs| then objs[p - start] else was[p])
            else if p - start + size < |objs| then objs[p - start + size] else was[p]
      {
        Distance(head, p);
      }
    }

    /** Where the k-th object behind `head` lies. */
    lemma Position(head: nat, k: nat)
      requires Geometry() && k < size
      ensures var start := And(head, mask);
        start < size && Pos(head + k, size) == if start + k < size then start + k else start + k - size
    {
      MaskIsMod(head);
      var start := head % size;
      ModUnique(start, size, 0, start);
      SameResidue(head, start, k, size);
      if start + k < size {
        ModUnique(start + k, size, 0, start + k);
      } else {
        ModUnique(start + k, size, 1, start + k - size);
      }
    }

    /** DEQUEUE_PTRS: the same loops the other way read exactly Get. */
    method DequeuePtrs(head: nat, objTable: array<Ptr>, n: nat)
      requires Geometry() && n <= mask && n <= objTable.Length && objTable != ring
      modifies objTable
      ensures objTable[..n] == Get(ring[..], head, n)
      ensures objTable[n..] == old(objTable[n..])
    {
      hide Pos, And, Get;
      var idx := And(head, mask);
      MaskIsMod(head);
      GetIsSplit(head, n);
      if idx + n < size {
        CopyStraight(idx, objTable, n);
        assert objTable[..n] == ring[idx..idx + n];
      } else {
        var i := 0;
        ghost var start := idx;
        while idx < size
          invariant 0 <= i <= n && idx == start + i <= size
          invariant forall k :: 0 <= k < i ==> objTable[k] == ring[start + k]
          invariant objTable[n..] == old(objTable[n..])
        {
          objTable[i] := ring[idx];
          i, idx := i + 1, idx + 1;
        }
        idx := 0;
        while i < n
          invariant size - start <= i <= n && idx == i - (size - start)
          invariant forall k :: 0 <= k < i ==> objTable[k] == (ring[start..] + ring[..idx])[k]
          invariant objTable[n..] == old(objTable[n..])
        {
          objTable[i] := ring[idx];
          i, idx := i + 1, idx + 1;
        }
        assert objTable[..n] == ring[start..] + ring[..n - (size - start)];
      }
    }

    /** The unrolled branch of DEQUEUE_PTRS: blocks of four, then a fall-through switch. */
    method CopyStraight(start: nat, objTable: array<Ptr>, n: nat)
      requires Geometry() && start + n < size && n <= objTable.Length && objTable != ring
      modifies objTable
      ensures forall k :: 0 <= k < n ==> objTable[k] == ring[start + k]
      ensures forall k :: n <= k < objTable.Length ==> objTable[k] == old(objTable[k])
    {
      hide IsPow2;
      var i, idx := 0, start;
      ghost var blocks, b := n / 4, 0;
      assert n - n % 4 == 4 * blocks;
      while i < n - n % 4
        invariant i == 4 * b && b <= blocks && idx == start + i
        invariant forall k :: 0 <= k < i ==> objTable[k] == ring[start + k]
        invariant forall k :: n <= k < objTable.Length ==> objTable[k] == old(objTable[k])
      {
        CopyBlock(objTable, i, idx);
        i, idx := i + 4, idx + 4;
        b := b + 1;
      }
      CopyRest(start, objTable, n, i);
    }

    /** One turn of the unrolled loop. */
    method CopyBlock(objTable: array<Ptr>, i: nat, idx: nat)
      requires idx + 4 <= ring.Length && i + 4 <= objTable.Length && objTable != ring
      modifies objTable
      ensures forall k :: i <= k < i + 4 ==> objTable[k] == ring[idx + (k - i)]
      ensures forall k :: 0 <= k < i || i + 4 <= k < objTable.Length ==> objTable[k] == old(objTable[k])
    {
      objTable[i] := ring[idx];
      objTable[i + 1] := ring[idx + 1];
      objTable[i + 2] := ring[idx + 2];
      objTable[i + 3] := ring[idx + 3];
    }

    method CopyRest(start: nat, objTable: array<Ptr>, n: nat, from: nat)
      requires Geometry() && start + n < size && n <= objTable.Length && objTable != ring
      requires from == n - n % 4
      modifies objTable
      ensures forall k :: from <= k < n ==> objTable[k] == ring[start + k]
      ensures forall k :: 0 <= k < from || n <= k < objTable.Length ==> objTable[k] == old(objTable[k])
    {
      var i, idx := from, start + from;
      if n % 4 == 3 {
        objTable[i] := ring[idx];
        i, idx := i + 1, idx + 1;
      }
      if n % 4 >= 2 {
        objTable[i] := ring[idx];
        i, idx := i + 1, idx + 1;
      }
      if n % 4 >= 1 {
        objTable[i] := ring[idx];
        i, idx := i + 1, idx + 1;
      }
    }

    /** Reading n slots from `head` is one stretch of the array, or two at the wrap. */
    lemma GetIsSplit(head: nat, n: nat)
      requires Geometry() && n <= mask
      ensures var start := And(head, mask);
        start < size && Get(ring[..], head, n) ==
          if start + n < size then ring[start..start + n] else ring[start..] + ring[..start + n - size]
    {
      hide Pos, And;
      Position(head, 0);
      forall k | 0 <= k < n
        ensures var start := And(head, mask);
          Get(ring[..], head, n)[k] == ring[if start + k < size then start + k else start + k - size]
      {
        Position(head, k);
      }
    }

    /** __rte_ring_sp_do_enqueue. A fixed enqueue stores all of `objs` or nothing; a
        variable one stores as many as fit. The quota branch is taken as soon as the count
        reaches the watermark, one earlier than the documentation's "exceeded". */
    method SpEnqueue(objs: seq<Ptr>, beh: Behavior) returns (r: Ret)
      requires Valid() && |objs| < M32
      modifies this`prodHead, this`prodTail, ring
      ensures Valid()
      ensures var room := mask - |old(Contents())|;
        if |objs| <= room then
          r == Enqueued(|objs|, |Contents()| >= watermark) && Contents() == old(Contents()) + objs
        else if beh.Fixed? || room == 0 then
          r == NoBufs && Contents() == old(Contents()) && ring[..] == old(ring[..])
        else
          r == Enqueued(room, |Contents()| >= watermark) && Contents() == old(Contents()) + objs[..room]
    {
      hide Pos, And, Get, Put, IsPow2, U32;
      var n := |objs|;
      var head := prodHead;
      var freeEntries := U32(mask + consTail - head);
      FreeEntries(consTail, head, mask);
      if n > freeEntries {
        if beh.Fixed? || freeEntries == 0 {
          return NoBufs;
        }
        n := freeEntries;
      }
      var next := U32(head + n);
      prodHead := next;
      AfterEnqueue(consTail, head, n);
      AppendBehind(ring[..], consTail, Used(), head, objs[..n]);
      EnqueuePtrs(head, objs[..n]);
      r := Enqueued(n, mask + 1 - freeEntries + n > watermark);
      prodTail := next;
      assert n == |objs| ==> objs[..n] == objs;
    }

    /** Objects written behind the contents join the contents. */
    lemma AppendBehind(was: seq<Ptr>, tail: nat, used: nat, head: nat, objs: seq<Ptr>)
      requires Geometry() && |was| == size && used + |objs| <= size
      requires head == U32(tail + used)
      ensures Get(Put(was, head, objs), tail, used + |objs|) == Get(was, tail, used) + objs
    {
      hide Pos;
      GetBeforePut(was, tail, used, objs);
      WrapKeepsSlot(tail + used);
      PutMod(was, head, objs, tail + used);
    }

    lemma WrapKeepsSlot(x: int)
      requires Geometry()
      ensures Pos(U32(x), size) == Pos(x, size)
    {
      PowersDivide32(size);
      var factor: nat :| factor > 0 && size * factor == M32;
      ModMod(x, size, M32, factor);
    }

    /** __rte_ring_sc_do_dequeue. */
    method ScDequeue(objTable: array<Ptr>, want: nat, beh: Behavior) returns (r: Ret)
      requires Valid() && want < M32 && want <= objTable.Length && objTable != ring
      modifies this`consHead, this`consTail, objTable
      ensures Valid()
      ensures var ready := |old(Contents())|;
        if want <= ready then
          r == Dequeued(old(Contents())[..want]) && Contents() == old(Contents())[want..]
        else if beh.Fixed? || ready == 0 then
          r == NoEnt && Contents() == old(Contents())
        else
          r == Dequeued(old(Contents())) && Contents() == []
      ensures r.Dequeued? ==> |r.objs| <= objTable.Length && objTable[..|r.objs|] == r.objs
      ensures ring[..] == old(ring[..])
    {
      hide Pos, And, Get, Put, IsPow2, U32;
      var n := want;
      var head := consHead;
      var entries := U32(prodTail - head);
      if n > entries {
        if beh.Fixed? || entries == 0 {
          return NoEnt;
        }
        n := entries;
      }
      var next := U32(head + n);
      consHead := next;
      AfterDequeue(head, prodTail, n);
      DropFront(ring[..], head, entries, n, next);
      DequeuePtrs(head, objTable, n);
      r := Dequeued(objTable[..n]);
      consTail := next;
    }

    lemma DropFront(was: seq<Ptr>, head: nat, used: nat, n: nat, next: nat)
      requires Geometry() && |was| == size && n <= used <= mask && next == U32(head + n)
      ensures Get(was, head, used)[..n] == Get(was, head, n)
      ensures Get(was, next, used - n) == Get(was, head, used)[n..]
    {
      hide Pos;
      WrapKeepsSlot(head + n);
      GetMod(was, next, used - n, head + n);
      forall k | 0 <= k < used - n
        ensures Get(was, head + n, used - n)[k] == Get(was, head, used)[n..][k]
      {
        assert head + n + k == head + (n + k);
      }
    }

    /** rte_ring_count, rte_ring_free_count, rte_ring_full and rte_ring_empty. */
    method Inspect() returns (count: nat, free: nat, full: bool, empty: bool)
      requires Valid()
      ensures count == |Contents()| && free == mask - |Contents()|
      ensures full <==> |Contents()| == mask
      ensures empty <==> Contents() == []
    {
      hide Pos, And;
      var taken, left := U32(prodTail - consTail), U32(consTail - prodTail - 1);
      FreeIsComplement(consTail, prodTail);
      MaskIsMod(taken);
      MaskIsMod(left);
      count := And(taken, mask);
      free := And(left, mask);
      full := And(left, mask) == 0;
      empty := consTail == prodTail;
    }

    lemma FreeIsComplement(tail: nat, head: nat)
      requires Geometry() && tail < M32 && head < M32 && U32(head - tail) <= mask
      ensures Pos(U32(head - tail), size) == U32(head - tail)
      ensures Pos(U32(tail - head - 1), size) == mask - U32(head - tail)
    {
      hide U32, Pos;
      var used := U32(head - tail);
      WrapsComplement(tail, head);
      StaysBelow(used);
      Complement(used);
    }

    lemma StaysBelow(used: nat)
      requires Geometry() && used <= mask
      ensures Pos(used, size) == used
    {
      ModUnique(used, size, 0, used);
    }

    lemma Complement(used: nat)
      requires Geometry() && used <= mask
      ensures Pos(M32 - 1 - used, size) == mask - used
    {
      PowersDivide32(size);
      var factor: nat :| factor > 0 && size * factor == M32;
      assert size * (factor - 1) == size * factor - size;
      ModUnique(M32 - 1 - used, size, factor - 1, mask - used);
    }
  }

  /** A ring of 8 with watermark 4: the fourth object is reported as exceeding it. */
  method QuotaNotExceeded() returns (ring: RteRing, first: Ret, second: Ret)
    ensures ring.Valid() && ring.watermark == 4 && first == Enqueued(3, false) && second == Enqueued(1, true)
    ensures ring.Contents() == [1, 2, 3, 4]
  {
    Pow2Values();
    assert IsPow2(8) by {
      assert Pow(2, 3) == 8;
    }
    var r := RteRing.Create(8);
    ring := r;
    var ok := ring.SetWaterMark(4);
    first := ring.SpEnqueue([1, 2, 3], Fixed);
    second := ring.SpEnqueue([4], Fixed);
  }

  lemma WrapsComplement(tail: nat, head: nat)
    requires tail < M32 && head < M32
    ensures U32(tail - head - 1) == M32 - 1 - U32(head - tail)
  {
  }
}
