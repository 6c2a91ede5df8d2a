/**
 * Arena layout of the incremental compacting block allocator, and its
 * consistency check.
 *
 * The arena is an administrative part (ADMIN bytes) followed by an array of
 * UNIT-sized cells.  A block is a header cell {size, ref} followed by its
 * payload cells; `size` counts bytes and includes the header.  A block whose
 * `ref` is URIPOS_INVALID is free, any other block is allocated.  The last
 * block is a zero-sized free sentinel.
 *
 * Everything here works on values (a snapshot of the cells and of the
 * administrative fields); the allocator class in module Icgcb is related to
 * it through its View().
 */
module IcgcbLayout {

  /** UNIT: sizeof(struct icgcb_hdr), two 16-bit uripos_t fields.  It is a
      power of two (see UnitIsPowerOfTwo). */
  const UNIT: nat := 4

  /** offsetof(struct icgcb, e): the administrative fields, padded to a
      multiple of UNIT. */
  const ADMIN: nat := 12

  /** sizeof(struct icgcb): the administrative fields and one header cell. */
  const SIZEOF_ICGCB: nat := ADMIN + UNIT

  /** URIPOS_INVALID, (uripos_t)-1 for a 16-bit uripos_t: the `ref` of a free
      block. */
  const URIPOS_INVALID: nat := 0xFFFF

  /** Limits on one collector call: blocks inspected and bytes moved. */
  const MAX_BLOCKS: nat := 10
  const MAX_BYTES: nat := 4096

  /** One arena cell read as a block header.  Payload cells are cells too:
      their content is carried along, but never interpreted. */
  datatype Hdr = Hdr(size: nat, ref: nat)

  /** The administrative fields together with the cells e[0..sentinel]. */
  datatype Arena = Arena(size: nat, freespace: nat, firstfree: nat,
                         openspace: nat, sentinel: nat, e: seq<Hdr>)

  /** An allocated block as its owner sees it: its tag, its header size
      (UNIT plus the size requested) and the cells of its payload.  Where it
      lies in the arena is not part of it, since the collector moves it. */
  datatype Block = Block(ref: nat, size: nat, payload: seq<Hdr>)

  /** The static assertion that UNIT is a power of two, `UNIT & -UNIT == UNIT`,
      computed in a 64-bit size_t. */
  lemma UnitIsPowerOfTwo()
    ensures (UNIT as bv64) & -(UNIT as bv64) == UNIT as bv64
  {}

  /** With UNIT == 4, masking a 16-bit value with ~(UNIT - 1) clears exactly
      its remainder modulo UNIT; this is why AlignDown below subtracts it. */
  lemma MaskClearsRemainder(y: bv16)
    ensures y & !3 == y - y % 4
  {}

  /** `x & ~(UNIT - 1)`: the largest multiple of UNIT not above x. */
  function AlignDown(x: nat): (r: nat)
    ensures r % UNIT == 0 && r <= x < r + UNIT
  {
    x - x % UNIT
  }

  /** alignup: the least multiple of UNIT that is at least `size`, for any
      `size` whose `size + UNIT - 1` does not wrap around in uripos_t. */
  function AlignUp(size: nat): (r: nat)
    requires size + UNIT - 1 <= URIPOS_INVALID
    ensures r % UNIT == 0 && size <= r < size + UNIT
  {
    AlignDown(size + UNIT - 1)
  }

  /** The number of cells taken by a block whose header says `size`:
      `alignup(size) / UNIT`, counted cell by cell. */
  ghost function Cells(size: nat): nat
  {
    if size == 0 then 0 else 1 + Cells(if size <= UNIT then 0 else size - UNIT)
  }

  lemma {:induction false} CellsIsQuotient(size: nat)
    ensures Cells(size) == (size + UNIT - 1) / UNIT
    decreases size
  {
    if size > UNIT {
      CellsIsQuotient(size - UNIT);
    }
  }

  lemma CellsOfAligned(size: nat)
    requires size + UNIT - 1 <= URIPOS_INVALID
    ensures AlignUp(size) == Cells(size) * UNIT
    ensures Cells(AlignUp(size)) == Cells(size)
    ensures Cells(UNIT + size) == 1 + Cells(size)
  {
    CellsIsQuotient(size);
    CellsIsQuotient(AlignUp(size));
    CellsIsQuotient(UNIT + size);
  }

  lemma CellsOfMultiple(size: nat)
    requires size % UNIT == 0
    ensures Cells(size) == size / UNIT && Cells(size) * UNIT == size
  {
    CellsIsQuotient(size);
  }

  /** Multiples of UNIT are closed under subtraction. */
  lemma MultipleSub(x: nat, y: nat)
    requires x % UNIT == 0 && y % UNIT == 0 && y <= x
    ensures (x - y) % UNIT == 0 && (x - y) / UNIT == x / UNIT - y / UNIT
  {}

  /** Multiples of UNIT are closed under addition. */
  lemma MultipleAdd(x: nat, y: nat)
    requires x % UNIT == 0 && y % UNIT == 0
    ensures (x + y) % UNIT == 0 && (x + y) / UNIT == x / UNIT + y / UNIT
  {}

  /** n whole cells take n cells. */
  lemma {:induction false} CellsOfWhole(n: nat)
    ensures Cells(n * UNIT) == n
  {
    if n > 1 {
      CellsOfWhole(n - 1);
    }
  }

  lemma CellsBound(size: nat)
    ensures size <= Cells(size) * UNIT < size + UNIT
    ensures size > UNIT ==> Cells(size) >= 2
  {
    CellsIsQuotient(size);
  }

  /** The payload cells of a block of n cells whose header is at cell i: the
      n - 1 cells after the header, or none when they would not fit. */
  ghost function Payload(s: seq<Hdr>, i: nat, n: nat): (p: seq<Hdr>)
    ensures 0 < n && i + n <= |s| ==> |p| == n - 1
  {
    if 0 < n && i + n <= |s| then s[i + 1 .. i + n] else []
  }

  /** The block whose header is at cell i, as its owner sees it. */
  ghost function BlockAt(s: seq<Hdr>, i: nat): Block
    requires i < |s|
  {
    Block(s[i].ref, s[i].size, Payload(s, i, Cells(s[i].size)))
  }

  /** A well-formed block header inside the part of the arena that the check
      walks: larger than a bare header, and a multiple of UNIT when free. */
  ghost predicate WellFormed(h: Hdr)
  {
    h.size > UNIT && (h.ref != URIPOS_INVALID || h.size % UNIT == 0)
  }

  /** Walking block by block from cell i lands exactly on cell j, and every
      block passed is allocated (the first loop of check). */
  ghost predicate Compacted(s: seq<Hdr>, i: nat, j: nat)
    decreases j - i
  {
    if i >= j then i == j
    else
      && i < |s| && s[i].ref != URIPOS_INVALID && s[i].size > UNIT
      && Compacted(s, i + Cells(s[i].size), j)
  }

  /** Walking block by block from cell i lands exactly on cell j, and every
      block passed is well formed (the second loop of check). */
  ghost predicate Pending(s: seq<Hdr>, i: nat, j: nat)
    decreases j - i
  {
    if i >= j then i == j
    else
      && i < |s| && WellFormed(s[i])
      && Pending(s, i + Cells(s[i].size), j)
  }

  /** The bytes of the free blocks passed on the walk from i to j. */
  ghost function FreeBytes(s: seq<Hdr>, i: nat, j: nat): nat
    requires Pending(s, i, j)
    decreases j - i
  {
    if i >= j then 0
    else
      (if s[i].ref == URIPOS_INVALID then s[i].size else 0)
      + FreeBytes(s, i + Cells(s[i].size), j)
  }

  /** The bytes (whole cells) of the allocated blocks passed on the walk. */
  ghost function UsedBytes(s: seq<Hdr>, i: nat, j: nat): nat
    requires Pending(s, i, j)
    decreases j - i
  {
    if i >= j then 0
    else
      (if s[i].ref != URIPOS_INVALID then Cells(s[i].size) * UNIT else 0)
      + UsedBytes(s, i + Cells(s[i].size), j)
  }

  /** The allocated blocks passed on the walk, in arena order. */
  ghost function Live(s: seq<Hdr>, i: nat, j: nat): seq<Block>
    requires Pending(s, i, j) && j <= |s|
    decreases j - i
  {
    if i >= j then []
    else
      var next := i + Cells(s[i].size);
      PendingOrdered(s, next, j);
      if s[i].ref != URIPOS_INVALID then [BlockAt(s, i)] + Live(s, next, j)
      else Live(s, next, j)
  }

  /** The number of blocks passed on the walk. */
  ghost function BlockCount(s: seq<Hdr>, i: nat, j: nat): nat
    requires Pending(s, i, j)
    decreases j - i
  {
    if i >= j then 0 else 1 + BlockCount(s, i + Cells(s[i].size), j)
  }

  /** check(): the structural invariant of the arena. */
  ghost predicate Check(a: Arena)
  {
    // the model's arena: cells e[0..sentinel], and `size` the byte size of
    // the administrative part plus those cells, within init's bound
    && |a.e| == a.sentinel + 1
    && a.size == ADMIN + |a.e| * UNIT
    && a.size < AlignDown(URIPOS_INVALID) - UNIT
    // the assertions of check
    && a.firstfree <= a.openspace <= a.sentinel
    && a.freespace <= a.size - ADMIN && a.freespace % UNIT == 0
    && a.e[a.sentinel] == Hdr(0, URIPOS_INVALID)
    && a.e[a.firstfree].ref == URIPOS_INVALID && a.e[a.firstfree].size % UNIT == 0
    && a.e[a.openspace].ref == URIPOS_INVALID && a.e[a.openspace].size % UNIT == 0
    && (a.openspace == a.sentinel || a.e[a.openspace].size > 0)
    && Compacted(a.e, 0, a.firstfree)
    && Pending(a.e, a.firstfree, a.openspace)
    && a.openspace + a.e[a.openspace].size / UNIT == a.sentinel
    && a.freespace == FreeBytes(a.e, a.firstfree, a.openspace) + a.e[a.openspace].size
  }

  /** Cell p is the header of an allocated block below the open space: a
      block that the allocator handed out and that has not been freed. */
  ghost predicate IsLive(a: Arena, p: nat)
  {
    p < a.openspace && p < |a.e| && Pending(a.e, 0, p) && a.e[p].ref != URIPOS_INVALID
  }

  /** All allocated blocks of the arena, in arena order. */
  ghost function Blocks(a: Arena): seq<Block>
    requires Check(a)
  {
    CheckedWalk(a);
    Live(a.e, 0, a.openspace)
  }

  /** The whole cells of all allocated blocks. */
  ghost function AllocatedBytes(a: Arena): nat
    requires Check(a)
  {
    CheckedWalk(a);
    UsedBytes(a.e, 0, a.openspace)
  }

  // ---------------------------------------------------------------------
  // Lemmas about the walk

  /** A walk lands at or after where it starts. */
  lemma PendingOrdered(s: seq<Hdr>, i: nat, j: nat)
    requires Pending(s, i, j)
    ensures i <= j
  {}

  /** The first step of a nonempty walk from i, which lands on n, for
      everything summed or listed along it. */
  lemma PendingFirst(s: seq<Hdr>, i: nat, n: nat, j: nat)
    requires Pending(s, i, j) && i < j && i < |s| && n == i + Cells(s[i].size)
    ensures WellFormed(s[i]) && n <= j && Pending(s, n, j)
    ensures FreeBytes(s, i, j)
            == (if s[i].ref == URIPOS_INVALID then s[i].size else 0) + FreeBytes(s, n, j)
    ensures UsedBytes(s, i, j)
            == (if s[i].ref != URIPOS_INVALID then Cells(s[i].size) * UNIT else 0)
               + UsedBytes(s, n, j)
    ensures BlockCount(s, i, j) == 1 + BlockCount(s, n, j)
    ensures j <= |s| && s[i].ref != URIPOS_INVALID ==>
              Live(s, i, j) == [BlockAt(s, i)] + Live(s, n, j)
    ensures j <= |s| && s[i].ref == URIPOS_INVALID ==> Live(s, i, j) == Live(s, n, j)
  {
    PendingOrdered(s, n, j);
  }

  /** The first step of a nonempty walk from i, which lands on n. */
  lemma PendingStep(s: seq<Hdr>, i: nat, n: nat, j: nat)
    requires Pending(s, i, j) && i < j && i < |s| && n == i + Cells(s[i].size)
    ensures WellFormed(s[i]) && n <= j && Pending(s, n, j)
  {
    PendingOrdered(s, n, j);
  }

  /** The first step of a nonempty walk from i, for the blocks listed. */
  lemma LiveStep(s: seq<Hdr>, i: nat, n: nat, j: nat)
    requires Pending(s, i, j) && i < j && j <= |s| && n == i + Cells(s[i].size)
    ensures s[i].ref != URIPOS_INVALID ==>
              Live(s, i, j) == [BlockAt(s, i)] + Live(s, n, j)
    ensures s[i].ref == URIPOS_INVALID ==> Live(s, i, j) == Live(s, n, j)
  {
    PendingOrdered(s, n, j);
  }

  /** A well-formed block at i, ending at n, followed by a walk from n to j
      is a walk from i to j. */
  lemma PendingCons(s: seq<Hdr>, i: nat, n: nat, j: nat)
    requires i < |s| && WellFormed(s[i]) && n == i + Cells(s[i].size) && Pending(s, n, j)
    ensures Pending(s, i, j) && i < n <= j
  {
    CellsBound(s[i].size);
    PendingOrdered(s, n, j);
  }

  /** An allocated block at i, ending at n, followed by a compacted run from
      n to j is a compacted run from i to j. */
  lemma CompactedCons(s: seq<Hdr>, i: nat, n: nat, j: nat)
    requires i < |s| && s[i].ref != URIPOS_INVALID && s[i].size > UNIT
    requires n == i + Cells(s[i].size) && Compacted(s, n, j)
    ensures Compacted(s, i, j)
  {
    CellsBound(s[i].size);
    CompactedIsPending(s, n, j);
    PendingOrdered(s, n, j);
  }

  /** A compacted run is a pending run with no free bytes. */
  lemma {:induction false} CompactedIsPending(s: seq<Hdr>, i: nat, j: nat)
    requires Compacted(s, i, j)
    ensures Pending(s, i, j) && FreeBytes(s, i, j) == 0
    ensures UsedBytes(s, i, j) == (j - i) * UNIT
    decreases j - i
  {
    if i < j {
      var next := i + Cells(s[i].size);
      CompactedIsPending(s, next, j);
      assert Pending(s, next, j);
      PendingOrdered(s, next, j);
    }
  }

  /** Two compacted runs end to end form one. */
  lemma {:induction false} CompactedConcat(s: seq<Hdr>, i: nat, j: nat, k: nat)
    requires Compacted(s, i, j) && Compacted(s, j, k)
    ensures Compacted(s, i, k)
    decreases j - i
  {
    if i < j {
      CompactedConcat(s, i + Cells(s[i].size), j, k);
    }
  }

  /** Two pending runs end to end form one. */
  lemma {:induction false} PendingJoin(s: seq<Hdr>, i: nat, j: nat, k: nat)
    requires Pending(s, i, j) && Pending(s, j, k)
    ensures Pending(s, i, k)
    decreases j - i
  {
    if i < j {
      PendingJoin(s, i + Cells(s[i].size), j, k);
    }
  }

  /** The free bytes of two pending runs end to end add up. */
  lemma {:induction false} FreeBytesJoin(s: seq<Hdr>, i: nat, j: nat, k: nat)
    requires Pending(s, i, j) && Pending(s, j, k) && Pending(s, i, k)
    ensures FreeBytes(s, i, k) == FreeBytes(s, i, j) + FreeBytes(s, j, k)
    decreases j - i
  {
    if i < j {
      var next := i + Cells(s[i].size);
      PendingJoin(s, next, j, k);
      FreeBytesJoin(s, next, j, k);
    }
  }

  /** The used bytes of two pending runs end to end add up. */
  lemma {:induction false} UsedBytesJoin(s: seq<Hdr>, i: nat, j: nat, k: nat)
    requires Pending(s, i, j) && Pending(s, j, k) && Pending(s, i, k)
    ensures UsedBytes(s, i, k) == UsedBytes(s, i, j) + UsedBytes(s, j, k)
    decreases j - i
  {
    if i < j {
      var next := i + Cells(s[i].size);
      PendingJoin(s, next, j, k);
      UsedBytesJoin(s, next, j, k);
    }
  }

  /** The live blocks of two pending runs end to end concatenate. */
  lemma {:induction false} LiveJoin(s: seq<Hdr>, i: nat, j: nat, k: nat)
    requires Pending(s, i, j) && Pending(s, j, k) && Pending(s, i, k) && k <= |s|
    ensures Live(s, i, k) == Live(s, i, j) + Live(s, j, k)
    decreases j - i
  {
    PendingOrdered(s, j, k);
    if i < j {
      var next := i + Cells(s[i].size);
      PendingOrdered(s, next, j);
      PendingJoin(s, next, j, k);
      LiveJoin(s, next, j, k);
    }
  }

  /** Two pending runs end to end form one, and the sums add up. */
  lemma PendingConcat(s: seq<Hdr>, i: nat, j: nat, k: nat)
    requires Pending(s, i, j) && Pending(s, j, k)
    ensures Pending(s, i, k)
    ensures FreeBytes(s, i, k) == FreeBytes(s, i, j) + FreeBytes(s, j, k)
    ensures UsedBytes(s, i, k) == UsedBytes(s, i, j) + UsedBytes(s, j, k)
    ensures k <= |s| ==> Live(s, i, k) == Live(s, i, j) + Live(s, j, k)
  {
    PendingJoin(s, i, j, k);
    FreeBytesJoin(s, i, j, k);
    UsedBytesJoin(s, i, j, k);
    if k <= |s| {
      LiveJoin(s, i, j, k);
    }
  }

  /** The walk is deterministic: a walk from i through p to k splits at p. */
  lemma {:induction false} PendingRest(s: seq<Hdr>, i: nat, p: nat, k: nat)
    requires Pending(s, i, p) && Pending(s, i, k) && p <= k
    ensures Pending(s, p, k)
    decreases p - i
  {
    if i < p {
      PendingRest(s, i + Cells(s[i].size), p, k);
    }
  }

  /** A walk from i through p to k splits at p, and so do the sums. */
  lemma PendingSplit(s: seq<Hdr>, i: nat, p: nat, k: nat)
    requires Pending(s, i, p) && Pending(s, i, k) && p <= k
    ensures Pending(s, p, k)
    ensures FreeBytes(s, i, k) == FreeBytes(s, i, p) + FreeBytes(s, p, k)
    ensures UsedBytes(s, i, k) == UsedBytes(s, i, p) + UsedBytes(s, p, k)
    ensures k <= |s| ==> Live(s, i, k) == Live(s, i, p) + Live(s, p, k)
  {
    PendingRest(s, i, p, k);
    PendingConcat(s, i, p, k);
  }

  /** The walk is deterministic within a compacted run too. */
  lemma {:induction false} CompactedSplit(s: seq<Hdr>, i: nat, p: nat, k: nat)
    requires Compacted(s, i, k) && Pending(s, i, p) && p <= k
    ensures Compacted(s, i, p) && Compacted(s, p, k)
    decreases p - i
  {
    if i < p {
      CompactedSplit(s, i + Cells(s[i].size), p, k);
    }
  }

  /** A compacted run only depends on the cells it covers. */
  lemma {:induction false} CompactedFrame(s: seq<Hdr>, t: seq<Hdr>, i: nat, j: nat)
    requires Compacted(s, i, j) && j <= |s| && j <= |t|
    requires forall k :: i <= k < j ==> s[k] == t[k]
    ensures Compacted(t, i, j)
    decreases j - i
  {
    if i < j {
      var next := i + Cells(s[i].size);
      CompactedFrame(s, t, next, j);
    }
  }

  /** A pending run only depends on the cells it covers. */
  lemma {:induction false} PendingCopy(s: seq<Hdr>, t: seq<Hdr>, i: nat, j: nat)
    requires Pending(s, i, j) && j <= |s| && j <= |t|
    requires forall k :: i <= k < j ==> s[k] == t[k]
    ensures Pending(t, i, j)
    decreases j - i
  {
    if i < j {
      PendingCopy(s, t, i + Cells(s[i].size), j);
    }
  }

  /** What is summed or listed along a pending run only depends on the cells
      it covers. */
  lemma {:induction false} WalkFrame(s: seq<Hdr>, t: seq<Hdr>, i: nat, j: nat)
    requires Pending(s, i, j) && Pending(t, i, j) && j <= |s| && j <= |t|
    requires forall k :: i <= k < j ==> s[k] == t[k]
    ensures FreeBytes(t, i, j) == FreeBytes(s, i, j)
    ensures UsedBytes(t, i, j) == UsedBytes(s, i, j)
    ensures Live(t, i, j) == Live(s, i, j)
    ensures BlockCount(t, i, j) == BlockCount(s, i, j)
    decreases j - i
  {
    if i < j {
      var next := i + Cells(s[i].size);
      PendingFirst(s, i, next, j);
      PendingFirst(t, i, next, j);
      PayloadFrame(s, t, i, next - i, j);
      WalkFrame(s, t, next, j);
    }
  }

  /** The payload of a block within cells i .. j only depends on those
      cells. */
  lemma PayloadFrame(s: seq<Hdr>, t: seq<Hdr>, i: nat, n: nat, j: nat)
    requires i + n <= j <= |s| && j <= |t|
    requires forall k :: i <= k < j ==> s[k] == t[k]
    ensures Payload(t, i, n) == Payload(s, i, n)
  {
    if 0 < n {
      assert t[i + 1 .. i + n] == s[i + 1 .. i + n];
    }
  }

  /** A pending run, and what is summed or listed along it, only depends on
      the cells it covers. */
  lemma PendingFrame(s: seq<Hdr>, t: seq<Hdr>, i: nat, j: nat)
    requires Pending(s, i, j) && j <= |s| && j <= |t|
    requires forall k :: i <= k < j ==> s[k] == t[k]
    ensures Pending(t, i, j)
    ensures FreeBytes(t, i, j) == FreeBytes(s, i, j)
    ensures UsedBytes(t, i, j) == UsedBytes(s, i, j)
    ensures Live(t, i, j) == Live(s, i, j)
    ensures BlockCount(t, i, j) == BlockCount(s, i, j)
  {
    PendingCopy(s, t, i, j);
    WalkFrame(s, t, i, j);
  }

  /** Every pending run covers exactly its cells: the allocated blocks' whole
      cells and the free blocks' bytes add up to its length. */
  lemma {:induction false} PendingConservation(s: seq<Hdr>, i: nat, j: nat)
    requires Pending(s, i, j)
    ensures UsedBytes(s, i, j) + FreeBytes(s, i, j) == (j - i) * UNIT
    decreases j - i
  {
    if i < j {
      var next := i + Cells(s[i].size);
      PendingFirst(s, i, next, j);
      PendingConservation(s, next, j);
      if s[i].ref == URIPOS_INVALID {
        CellsOfMultiple(s[i].size);
      }
    }
  }

  /** Under Check, the walk from cell 0 reaches the open space block. */
  lemma CheckedWalk(a: Arena)
    requires Check(a)
    ensures Pending(a.e, 0, a.firstfree) && Pending(a.e, 0, a.openspace)
    ensures a.openspace < |a.e|
    ensures FreeBytes(a.e, 0, a.openspace) == FreeBytes(a.e, a.firstfree, a.openspace)
    ensures Live(a.e, 0, a.openspace) == Live(a.e, 0, a.firstfree) + Live(a.e, a.firstfree, a.openspace)
  {
    CompactedIsPending(a.e, 0, a.firstfree);
    PendingConcat(a.e, 0, a.firstfree, a.openspace);
  }

  /** Conservation: the whole cells of the allocated blocks plus the free
      space make up all cells but the sentinel, at every consistent state. */
  lemma Conservation(a: Arena)
    requires Check(a)
    ensures AllocatedBytes(a) + a.freespace == a.size - ADMIN - UNIT
  {
    CheckedWalk(a);
    PendingConservation(a.e, 0, a.openspace);
    CellsOfMultiple(a.e[a.openspace].size);
  }

  /** Hard capacity: a request larger than the arena's usable space is
      refused for lack of space whatever the arena's state. */
  lemma HardCapacity(a: Arena, size: nat)
    requires Check(a) && size + UNIT - 1 <= URIPOS_INVALID
    requires UNIT + AlignUp(size) > a.size - ADMIN - UNIT
    ensures a.freespace < UNIT + AlignUp(size)
  {
    Conservation(a);
  }

  /** Under Check, the free space never exceeds the cells between the
      administrative part and the sentinel. */
  lemma FreespaceWithinArena(a: Arena)
    requires a.firstfree <= a.openspace <= a.sentinel
    requires Pending(a.e, a.firstfree, a.openspace)
    requires a.openspace < |a.e| && a.e[a.openspace].size % UNIT == 0
    requires a.openspace + a.e[a.openspace].size / UNIT == a.sentinel
    requires a.freespace == FreeBytes(a.e, a.firstfree, a.openspace) + a.e[a.openspace].size
    ensures a.freespace <= a.sentinel * UNIT
  {
    PendingConservation(a.e, a.firstfree, a.openspace);
    CellsOfMultiple(a.e[a.openspace].size);
  }

  /** A live block is well formed, lies below the open space, and splits the
      walk and the list of blocks in two. */
  lemma LiveBlock(a: Arena, p: nat)
    requires Check(a) && IsLive(a, p)
    ensures WellFormed(a.e[p]) && a.e[p].size + UNIT - 1 <= URIPOS_INVALID
    ensures p + Cells(a.e[p].size) <= a.openspace
    ensures Pending(a.e, p + Cells(a.e[p].size), a.openspace)
    ensures Blocks(a) == Live(a.e, 0, p)
                         + ([BlockAt(a.e, p)]
                            + Live(a.e, p + Cells(a.e[p].size), a.openspace))
  {
    CheckedWalk(a);
    LiveSplit(a.e, p, a.openspace);
    CellsBound(a.e[p].size);
    var x := [BlockAt(a.e, p)] + Live(a.e, p + Cells(a.e[p].size), a.openspace);
    assert Blocks(a) == Live(a.e, 0, a.openspace) == Live(a.e, 0, p) + x;
  }

  /** Every allocated block is listed among the blocks, header and
      payload. */
  lemma LiveIsListed(a: Arena, p: nat)
    requires Check(a) && IsLive(a, p)
    ensures BlockAt(a.e, p) in Blocks(a)
  {
    LiveBlock(a, p);
  }

  /** An allocated block on the walk from 0 to o splits the walk, and the
      list of blocks along it, in two. */
  lemma {:induction false} LiveSplit(s: seq<Hdr>, p: nat, o: nat)
    requires Pending(s, 0, p) && Pending(s, 0, o) && p < o <= |s|
    ensures WellFormed(s[p]) && p + Cells(s[p].size) <= o
    ensures Pending(s, p + Cells(s[p].size), o)
    ensures s[p].ref != URIPOS_INVALID ==>
              Live(s, 0, o) == Live(s, 0, p) + ([BlockAt(s, p)]
                                                + Live(s, p + Cells(s[p].size), o))
  {
    var n := p + Cells(s[p].size);
    PendingRest(s, 0, p, o);
    PendingStep(s, p, n, o);
    LiveJoin(s, 0, p, o);
    LiveStep(s, p, n, o);
  }

  // ---------------------------------------------------------------------
  // The effect of each operation on an arena, and what it preserves

  /** Facts about a request that fits in the open space block: it takes c
      whole cells, at least two, all within the open space block, and the
      free space covers them. */
  lemma CarveBounds(a: Arena, sz: nat)
    requires Check(a) && 0 < sz < a.size
    requires UNIT + AlignUp(sz) <= a.e[a.openspace].size
    ensures var c := (UNIT + AlignUp(sz)) / UNIT;
            && c * UNIT == UNIT + AlignUp(sz) && Cells(UNIT + sz) == c && c >= 2
            && a.openspace + c <= a.sentinel && c * UNIT <= a.freespace
  {
    CellsOfAligned(sz);
    CellsOfMultiple(a.e[a.openspace].size);
  }

  /** alloc when it succeeds: the low end of the open space block becomes an
      allocated block of UNIT + sz bytes tagged `ref`, taking c whole cells;
      the remainder becomes the open space block, and firstfree follows the
      open space if it was there; the free space shrinks by the c cells.
      When the remainder is too small to hold a header it is empty, since
      both sizes are multiples of UNIT, and its cell is the sentinel, whose
      header then already reads {0, URIPOS_INVALID}. */
  ghost function Carve(a: Arena, sz: nat, ref: nat): Arena
    requires Check(a) && 0 < sz < a.size
    requires UNIT + AlignUp(sz) <= a.e[a.openspace].size
  {
    CarveBounds(a, sz);
    var o := a.openspace;
    var c := (UNIT + AlignUp(sz)) / UNIT;
    a.(freespace := a.freespace - c * UNIT,
       firstfree := if a.firstfree == o then o + c else a.firstfree,
       openspace := o + c,
       e := a.e[o + c := Hdr(a.e[o].size - c * UNIT, URIPOS_INVALID)][o := Hdr(UNIT + sz, ref)])
  }

  /** The successful alloc as the source computes it: with no room for a
      remainder header the open space moves to the sentinel and no header
      is written for it, otherwise the remainder header is written. */
  lemma CarveAsComputed(a: Arena, sz: nat, ref: nat, sizeA: nat)
    requires Check(a) && 0 < sz < a.size
    requires sizeA == UNIT + AlignUp(sz) && sizeA <= a.e[a.openspace].size
    ensures a.openspace + sizeA / UNIT <= a.sentinel
    ensures a.e[a.openspace].size - sizeA < UNIT ==> a.openspace + sizeA / UNIT == a.sentinel
    ensures a.e[a.openspace].size - sizeA < UNIT ==>
              a.e == a.e[a.openspace + sizeA / UNIT := Hdr(a.e[a.openspace].size - sizeA, URIPOS_INVALID)]
    ensures var o := a.openspace;
            var os := if a.e[o].size - sizeA < UNIT then a.sentinel else o + sizeA / UNIT;
            Carve(a, sz, ref)
            == a.(freespace := a.freespace - sizeA,
                  firstfree := if a.firstfree == o then os else a.firstfree,
                  openspace := os,
                  e := a.e[o + sizeA / UNIT := Hdr(a.e[o].size - sizeA, URIPOS_INVALID)][o := Hdr(UNIT + sz, ref)])
  {
    CarveBounds(a, sz);
    CellsOfMultiple(a.e[a.openspace].size);
  }

  lemma CarveKeepsCheck(a: Arena, sz: nat, ref: nat)
    requires Check(a) && 0 < sz < a.size && ref != URIPOS_INVALID
    requires UNIT + AlignUp(sz) <= a.e[a.openspace].size
    ensures Check(Carve(a, sz, ref))
    ensures Carve(a, sz, ref).openspace == a.openspace + (UNIT + AlignUp(sz)) / UNIT
    ensures IsLive(Carve(a, sz, ref), a.openspace)
    ensures Blocks(Carve(a, sz, ref))
            == Blocks(a) + [Block(ref, UNIT + sz, Payload(a.e, a.openspace, (UNIT + AlignUp(sz)) / UNIT))]
  {
    CarveBounds(a, sz);
    var b, o, c := Carve(a, sz, ref), a.openspace, (UNIT + AlignUp(sz)) / UNIT;
    assert forall k :: 0 <= k < o ==> b.e[k] == a.e[k];
    assert b.e[o] == Hdr(UNIT + sz, ref);
    assert b.e[o + c] == Hdr(a.e[o].size - c * UNIT, URIPOS_INVALID);
    assert b.e[a.sentinel] == a.e[a.sentinel];
    assert a.firstfree != o ==> b.e[a.firstfree] == a.e[a.firstfree];
    assert forall k :: o < k < o + c ==> b.e[k] == a.e[k];
    Carved(a, sz, ref, c, b);
  }

  /** CarveKeepsCheck with the carved arena given by its fields. */
  lemma Carved(a: Arena, sz: nat, ref: nat, c: nat, b: Arena)
    requires Check(a) && ref != URIPOS_INVALID
    requires Cells(UNIT + sz) == c && c >= 2 && c * UNIT <= a.e[a.openspace].size
    requires b.size == a.size && b.sentinel == a.sentinel
    requires b.freespace == a.freespace - c * UNIT
    requires b.openspace == a.openspace + c
    requires b.firstfree == (if a.firstfree == a.openspace then a.openspace + c else a.firstfree)
    requires |b.e| == |a.e| && a.openspace + c < |a.e|
    requires b.e[a.openspace] == Hdr(UNIT + sz, ref)
    requires b.e[a.openspace + c] == Hdr(a.e[a.openspace].size - c * UNIT, URIPOS_INVALID)
    requires b.e[a.sentinel] == a.e[a.sentinel]
    requires a.firstfree != a.openspace ==> b.e[a.firstfree] == a.e[a.firstfree]
    requires forall k :: 0 <= k < a.openspace ==> b.e[k] == a.e[k]
    requires forall k :: a.openspace < k < a.openspace + c ==> b.e[k] == a.e[k]
    ensures Check(b) && IsLive(b, a.openspace)
    ensures Blocks(b) == Blocks(a) + [Block(ref, UNIT + sz, Payload(a.e, a.openspace, c))]
  {
    var o := a.openspace;
    CheckedWalk(a);
    CarvedWalk(a.e, b.e, a.firstfree, o, c, sz, ref);
    CarvedRun(b.e, a.firstfree, b.firstfree, o, c);
    CarvedArena(a, sz, ref, c, b);
    CarvedLive(a.e, b.e, o, c, sz, ref);
    SameBlocks(a, b, [Block(ref, UNIT + sz, Payload(a.e, o, c))]);
  }

  /** Blocks(b) extends Blocks(a) when the walk of b extends that of a. */
  lemma SameBlocks(a: Arena, b: Arena, extra: seq<Block>)
    requires Check(a) && Check(b)
    requires Pending(a.e, 0, a.openspace) && Pending(b.e, 0, b.openspace)
    requires a.openspace <= |a.e| && b.openspace <= |b.e|
    requires Live(b.e, 0, b.openspace) == Live(a.e, 0, a.openspace) + extra
    ensures Blocks(b) == Blocks(a) + extra
  {}

  /** The consistency part of CarveKeepsCheck, with the carved arena given by
      its fields and the walk over its cells. */
  lemma CarvedArena(a: Arena, sz: nat, ref: nat, c: nat, b: Arena)
    requires Check(a) && ref != URIPOS_INVALID
    requires c * UNIT <= a.e[a.openspace].size
    requires b.size == a.size && b.sentinel == a.sentinel
    requires b.freespace == a.freespace - c * UNIT
    requires b.openspace == a.openspace + c
    requires b.firstfree == (if a.firstfree == a.openspace then a.openspace + c else a.firstfree)
    requires |b.e| == |a.e| && a.openspace + c < |a.e|
    requires b.e[a.openspace] == Hdr(UNIT + sz, ref)
    requires b.e[a.openspace + c] == Hdr(a.e[a.openspace].size - c * UNIT, URIPOS_INVALID)
    requires b.e[a.sentinel] == a.e[a.sentinel]
    requires a.firstfree != a.openspace ==> b.e[a.firstfree] == a.e[a.firstfree]
    requires Compacted(b.e, 0, b.firstfree) && Pending(b.e, b.firstfree, b.openspace)
    requires FreeBytes(b.e, b.firstfree, b.openspace) == FreeBytes(a.e, a.firstfree, a.openspace)
    ensures Check(b)
  {
    CellsOfMultiple(a.e[a.openspace].size);
    MultipleSub(a.e[a.openspace].size, c * UNIT);
    MultipleSub(a.freespace, c * UNIT);
  }

  /** The walk over the carved cells: the runs below the open space are
      unchanged, and the new allocated block at o extends them. */
  lemma CarvedWalk(s: seq<Hdr>, t: seq<Hdr>, ff: nat, o: nat, c: nat, sz: nat, ref: nat)
    requires Compacted(s, 0, ff) && Pending(s, ff, o) && Pending(s, 0, o)
    requires ref != URIPOS_INVALID && Cells(UNIT + sz) == c && c >= 2
    requires o + c < |s| == |t| && t[o] == Hdr(UNIT + sz, ref)
    requires forall k :: 0 <= k < o ==> t[k] == s[k]
    ensures Pending(t, 0, o) && Pending(t, 0, o + c) && Compacted(t, o, o + c)
    ensures Compacted(t, 0, ff) && Pending(t, ff, o) && FreeBytes(t, ff, o) == FreeBytes(s, ff, o)
  {
    PendingOrdered(s, ff, o);
    PendingFrame(s, t, 0, o);
    CompactedCons(t, o, o + c, o + c);
    CompactedIsPending(t, o, o + c);
    CompactedFrame(s, t, 0, ff);
    PendingFrame(s, t, ff, o);
    PendingConcat(t, 0, o, o + c);
  }

  /** The blocks along the carved walk: those below o, then the new one. */
  lemma CarvedLive(s: seq<Hdr>, t: seq<Hdr>, o: nat, c: nat, sz: nat, ref: nat)
    requires Pending(s, 0, o) && Pending(t, 0, o) && Compacted(t, o, o + c)
    requires ref != URIPOS_INVALID && Cells(UNIT + sz) == c
    requires o + c < |s| == |t| && t[o] == Hdr(UNIT + sz, ref)
    requires forall k :: 0 <= k < o ==> t[k] == s[k]
    requires forall k :: o < k < o + c ==> t[k] == s[k]
    ensures Pending(t, 0, o + c)
    ensures Live(t, 0, o + c) == Live(s, 0, o) + [Block(ref, UNIT + sz, Payload(s, o, c))]
  {
    assert Payload(t, o, c) == Payload(s, o, c);
    PendingFrame(s, t, 0, o);
    CompactedIsPending(t, o, o + c);
    PendingFirst(t, o, o + c, o + c);
    PendingConcat(t, 0, o, o + c);
  }

  /** The walk from the new firstfree to the new open space, in either case
      of CarveKeepsCheck. */
  lemma CarvedRun(t: seq<Hdr>, ff: nat, ff2: nat, o: nat, c: nat)
    requires Compacted(t, 0, ff) && Pending(t, ff, o) && Compacted(t, o, o + c)
    requires ff2 == if ff == o then o + c else ff
    ensures Compacted(t, 0, ff2) && Pending(t, ff2, o + c)
    ensures FreeBytes(t, ff2, o + c) == FreeBytes(t, ff, o)
  {
    if ff == o {
      CompactedConcat(t, 0, o, o + c);
    } else {
      CompactedIsPending(t, o, o + c);
      PendingConcat(t, ff, o, o + c);
    }
  }

  /** free: the block at p becomes free with its size rounded up to whole
      cells, the free space grows by that size, and firstfree moves down to
      p if p lies below it. */
  ghost function Release(a: Arena, p: nat): Arena
    requires Check(a) && IsLive(a, p)
  {
    LiveBlock(a, p);
    var r := AlignUp(a.e[p].size);
    a.(freespace := a.freespace + r,
       firstfree := if p < a.firstfree then p else a.firstfree,
       e := a.e[p := Hdr(r, URIPOS_INVALID)])
  }

  /** Freeing an allocated block keeps check, and the header it writes is
      the block's size rounded up to whole cells. */
  lemma ReleaseChecks(a: Arena, p: nat)
    requires Check(a) && IsLive(a, p)
    ensures a.e[p].size + UNIT - 1 <= URIPOS_INVALID
    ensures Check(Release(a, p))
  {
    LiveBlock(a, p);
    ReleaseKeepsCheck(a, p);
  }

  lemma ReleaseKeepsCheck(a: Arena, p: nat)
    requires Check(a) && IsLive(a, p)
    ensures Check(Release(a, p))
    ensures |Live(a.e, 0, p)| < |Blocks(a)|
    ensures Blocks(a)[|Live(a.e, 0, p)|] == BlockAt(a.e, p)
    ensures Blocks(Release(a, p))
            == Blocks(a)[.. |Live(a.e, 0, p)|] + Blocks(a)[|Live(a.e, 0, p)| + 1 ..]
  {
    LiveBlock(a, p);
    CellsOfAligned(a.e[p].size);
    var b := Release(a, p);
    assert forall k :: 0 <= k < |a.e| && k != p ==> b.e[k] == a.e[k];
    Released(a, p, AlignUp(a.e[p].size), b);
  }

  /** ReleaseKeepsCheck with the released arena given by its fields. */
  lemma Released(a: Arena, p: nat, r: nat, b: Arena)
    requires Check(a) && IsLive(a, p)
    requires r == Cells(a.e[p].size) * UNIT
    requires b.size == a.size && b.sentinel == a.sentinel && b.openspace == a.openspace
    requires b.freespace == a.freespace + r
    requires b.firstfree == if p < a.firstfree then p else a.firstfree
    requires |b.e| == |a.e| && b.e[p] == Hdr(r, URIPOS_INVALID)
    requires forall k :: 0 <= k < |a.e| && k != p ==> b.e[k] == a.e[k]
    ensures Check(b)
    ensures |Live(a.e, 0, p)| < |Blocks(a)|
    ensures Blocks(a)[|Live(a.e, 0, p)|] == BlockAt(a.e, p)
    ensures Blocks(b) == Blocks(a)[.. |Live(a.e, 0, p)|] + Blocks(a)[|Live(a.e, 0, p)| + 1 ..]
  {
    LiveBlock(a, p);
    ReleasedWalk(a.e, b.e, p, a.openspace, r);
    ReleasedCheck(a, p, r, b);
    ReleasedOrder(a, b, p, p + Cells(a.e[p].size));
  }

  /** The consistency part of Released. */
  lemma ReleasedCheck(a: Arena, p: nat, r: nat, b: Arena)
    requires Check(a) && IsLive(a, p)
    requires r == Cells(a.e[p].size) * UNIT
    requires b.size == a.size && b.sentinel == a.sentinel && b.openspace == a.openspace
    requires b.freespace == a.freespace + r
    requires b.firstfree == if p < a.firstfree then p else a.firstfree
    requires |b.e| == |a.e| && b.e[p] == Hdr(r, URIPOS_INVALID)
    requires forall k :: 0 <= k < |a.e| && k != p ==> b.e[k] == a.e[k]
    ensures Check(b)
  {
    var s, t, o := a.e, b.e, a.openspace;
    LiveBlock(a, p);
    CheckedWalk(a);
    ReleasedWalk(s, t, p, o, r);
    ReleasedRun(s, t, a.firstfree, b.firstfree, p, o, r);
    assert t[a.sentinel] == s[a.sentinel] && t[o] == s[o];
    if p < a.firstfree {
      assert t[b.firstfree] == Hdr(r, URIPOS_INVALID);
    } else {
      assert t[b.firstfree] == s[a.firstfree];
    }
    ReleasedArena(a, r, b);
  }

  /** The list part of Released: the freed block drops out of the list. */
  lemma ReleasedOrder(a: Arena, b: Arena, p: nat, q: nat)
    requires Check(a) && Check(b) && b.openspace == a.openspace && |b.e| == |a.e|
    requires Pending(a.e, 0, p) && Pending(a.e, p, a.openspace) && p < |a.e|
    requires Pending(b.e, 0, p) && Pending(b.e, p, a.openspace)
    requires Pending(a.e, q, a.openspace)
    requires Live(b.e, 0, p) == Live(a.e, 0, p)
    requires Live(a.e, p, a.openspace) == [BlockAt(a.e, p)] + Live(a.e, q, a.openspace)
    requires Live(b.e, p, a.openspace) == Live(a.e, q, a.openspace)
    ensures |Live(a.e, 0, p)| < |Blocks(a)|
    ensures Blocks(a)[|Live(a.e, 0, p)|] == BlockAt(a.e, p)
    ensures Blocks(b) == Blocks(a)[.. |Live(a.e, 0, p)|] + Blocks(a)[|Live(a.e, 0, p)| + 1 ..]
  {
    var s, t, o := a.e, b.e, a.openspace;
    CheckedWalk(a);
    CheckedWalk(b);
    PendingConcat(t, 0, p, o);
    PendingConcat(s, 0, p, o);
    ReleasedBlocks(Blocks(a), Live(s, 0, p), BlockAt(s, p), Live(s, q, o), Blocks(b));
  }

  /** Removing the element between two parts of a list. */
  lemma ReleasedBlocks(all: seq<Block>, before: seq<Block>, x: Block, after: seq<Block>, rest: seq<Block>)
    requires all == before + ([x] + after) && rest == before + after
    ensures |before| < |all| && all[|before|] == x
    ensures rest == all[.. |before|] + all[|before| + 1 ..]
  {
    assert all[.. |before|] == before;
    assert all[|before| + 1 ..] == after;
  }

  /** The walk over the released cells: the freed block becomes a free block
      of its whole cells, everything else on the walk is unchanged. */
  lemma ReleasedWalk(s: seq<Hdr>, t: seq<Hdr>, p: nat, o: nat, r: nat)
    requires Pending(s, 0, p) && p < |s| && WellFormed(s[p]) && s[p].ref != URIPOS_INVALID
    requires Pending(s, p + Cells(s[p].size), o) && o <= |s| == |t|
    requires r == Cells(s[p].size) * UNIT && t[p] == Hdr(r, URIPOS_INVALID)
    requires forall k :: 0 <= k < |s| && k != p ==> t[k] == s[k]
    ensures Pending(t, 0, p) && Pending(s, p, o) && Pending(t, p, o)
    ensures FreeBytes(t, p, o) == r + FreeBytes(s, p, o)
    ensures Live(t, 0, p) == Live(s, 0, p)
    ensures Live(s, p, o) == [BlockAt(s, p)] + Live(s, p + Cells(s[p].size), o)
    ensures Live(t, p, o) == Live(s, p + Cells(s[p].size), o)
  {
    ReleasedHead(s, t, p);
    ReleasedTail(s, t, p, o, r);
  }

  /** Freeing the block at p leaves the walk up to p as it was. */
  lemma ReleasedHead(s: seq<Hdr>, t: seq<Hdr>, p: nat)
    requires Pending(s, 0, p) && p < |s| == |t|
    requires forall k :: 0 <= k < |s| && k != p ==> t[k] == s[k]
    ensures Pending(t, 0, p) && Live(t, 0, p) == Live(s, 0, p)
  {
    PendingFrame(s, t, 0, p);
  }

  /** Freeing the block at p turns it into free bytes on the walk from p. */
  lemma ReleasedTail(s: seq<Hdr>, t: seq<Hdr>, p: nat, o: nat, r: nat)
    requires p < |s| && WellFormed(s[p]) && s[p].ref != URIPOS_INVALID
    requires Pending(s, p + Cells(s[p].size), o) && o <= |s| == |t|
    requires r == Cells(s[p].size) * UNIT && t[p] == Hdr(r, URIPOS_INVALID)
    requires forall k :: 0 <= k < |s| && k != p ==> t[k] == s[k]
    ensures Pending(s, p, o) && Pending(t, p, o)
    ensures FreeBytes(t, p, o) == r + FreeBytes(s, p, o)
    ensures Live(s, p, o) == [BlockAt(s, p)] + Live(s, p + Cells(s[p].size), o)
    ensures Live(t, p, o) == Live(s, p + Cells(s[p].size), o)
  {
    var q := p + Cells(s[p].size);
    CellsBound(s[p].size);
    CellsOfWhole(Cells(s[p].size));
    PendingOrdered(s, q, o);
    PendingFrame(s, t, q, o);
    PendingCons(s, p, q, o);
    PendingFirst(s, p, q, o);
    ReleasedCell(t, p, q, o, r);
  }

  /** A free block of r bytes at p, ending at q, in front of a walk from q. */
  lemma ReleasedCell(t: seq<Hdr>, p: nat, q: nat, o: nat, r: nat)
    requires p < |t| && t[p] == Hdr(r, URIPOS_INVALID) && r > UNIT && r % UNIT == 0
    requires q == p + Cells(r) && Pending(t, q, o)
    ensures Pending(t, p, o)
    ensures FreeBytes(t, p, o) == r + FreeBytes(t, q, o)
    ensures o <= |t| ==> Live(t, p, o) == Live(t, q, o)
  {
    PendingCons(t, p, q, o);
    PendingFirst(t, p, q, o);
  }

  /** The walk from the new firstfree to the open space after a release, on
      either side of the old firstfree. */
  lemma ReleasedRun(s: seq<Hdr>, t: seq<Hdr>, ff: nat, ff2: nat, p: nat, o: nat, r: nat)
    requires Compacted(s, 0, ff) && Pending(s, ff, o) && Pending(s, 0, p) && Pending(s, p, o)
    requires p < o <= |s| == |t| && ff < |s| && s[p].ref != URIPOS_INVALID && s[ff].ref == URIPOS_INVALID
    requires Pending(t, 0, p) && Pending(t, p, o) && FreeBytes(t, p, o) == r + FreeBytes(s, p, o)
    requires forall k :: 0 <= k < |s| && k != p ==> t[k] == s[k]
    requires ff2 == if p < ff then p else ff
    ensures Compacted(t, 0, ff2) && Pending(t, ff2, o)
    ensures FreeBytes(t, ff2, o) == r + FreeBytes(s, ff, o)
  {
    if p < ff {
      ReleasedBelow(s, t, ff, p, o, r);
    } else {
      ReleasedAbove(s, t, ff, p, o, r);
    }
  }

  /** A release below firstfree: the freed block is the new firstfree block,
      and the compacted run after it adds no free bytes. */
  lemma ReleasedBelow(s: seq<Hdr>, t: seq<Hdr>, ff: nat, p: nat, o: nat, r: nat)
    requires Compacted(s, 0, ff) && Pending(s, ff, o) && Pending(s, 0, p) && Pending(s, p, o)
    requires p < ff <= o <= |s| == |t|
    requires Pending(t, p, o) && FreeBytes(t, p, o) == r + FreeBytes(s, p, o)
    requires forall k :: 0 <= k < |s| && k != p ==> t[k] == s[k]
    ensures Compacted(t, 0, p) && FreeBytes(t, p, o) == r + FreeBytes(s, ff, o)
  {
    CompactedSplit(s, 0, p, ff);
    CompactedFrame(s, t, 0, p);
    CompactedIsPending(s, p, ff);
    PendingSplit(s, p, ff, o);
  }

  /** A release above firstfree: the pending run gains the freed bytes. */
  lemma ReleasedAbove(s: seq<Hdr>, t: seq<Hdr>, ff: nat, p: nat, o: nat, r: nat)
    requires Compacted(s, 0, ff) && Pending(s, ff, o) && Pending(s, 0, p) && Pending(s, p, o)
    requires ff <= p < o <= |s| == |t|
    requires Pending(t, p, o) && FreeBytes(t, p, o) == r + FreeBytes(s, p, o)
    requires forall k :: 0 <= k < |s| && k != p ==> t[k] == s[k]
    ensures Compacted(t, 0, ff) && Pending(t, ff, o)
    ensures FreeBytes(t, ff, o) == r + FreeBytes(s, ff, o)
  {
    CompactedIsPending(s, 0, ff);
    PendingSplit(s, 0, ff, p);
    PendingSplit(s, ff, p, o);
    CompactedFrame(s, t, 0, ff);
    PendingFrame(s, t, ff, p);
    PendingConcat(t, ff, p, o);
  }

  /** The consistency part of ReleaseKeepsCheck. */
  lemma ReleasedArena(a: Arena, r: nat, b: Arena)
    requires Check(a) && r % UNIT == 0
    requires b.size == a.size && b.sentinel == a.sentinel && b.openspace == a.openspace
    requires b.freespace == a.freespace + r
    requires |b.e| == |a.e| && b.firstfree < |b.e|
    requires b.e[a.sentinel] == a.e[a.sentinel] && b.e[a.openspace] == a.e[a.openspace]
    requires b.e[b.firstfree].ref == URIPOS_INVALID && b.e[b.firstfree].size % UNIT == 0
    requires b.firstfree <= b.openspace
    requires Compacted(b.e, 0, b.firstfree) && Pending(b.e, b.firstfree, b.openspace)
    requires FreeBytes(b.e, b.firstfree, b.openspace) == r + FreeBytes(a.e, a.firstfree, a.openspace)
    ensures Check(b)
  {
    FreespaceWithinArena(b);
    MultipleAdd(a.freespace, r);
  }

  /** The block that follows the firstfree block. */
  ghost function NextBlock(a: Arena): nat
    requires a.firstfree < |a.e|
  {
    a.firstfree + a.e[a.firstfree].size / UNIT
  }

  /** While firstfree is below the open space, the firstfree block is a
      well-formed free block followed by another block on the walk. */
  lemma StepShape(a: Arena)
    requires Check(a) && a.firstfree != a.openspace
    ensures WellFormed(a.e[a.firstfree]) && a.e[a.firstfree].size > UNIT
    ensures NextBlock(a) == a.firstfree + Cells(a.e[a.firstfree].size)
    ensures a.firstfree < NextBlock(a) <= a.openspace
    ensures Pending(a.e, NextBlock(a), a.openspace)
    ensures NextBlock(a) < a.openspace ==> WellFormed(a.e[NextBlock(a)])
    ensures NextBlock(a) < a.openspace ==>
              NextBlock(a) + Cells(a.e[NextBlock(a)].size) <= a.openspace
    ensures NextBlock(a) < a.openspace ==> a.e[NextBlock(a)].size + UNIT - 1 <= URIPOS_INVALID
  {
    var ne := NextBlock(a);
    PendingFirst(a.e, a.firstfree, a.firstfree + Cells(a.e[a.firstfree].size), a.openspace);
    CellsOfMultiple(a.e[a.firstfree].size);
    if ne < a.openspace {
      PendingFirst(a.e, ne, ne + Cells(a.e[ne].size), a.openspace);
      CellsBound(a.e[ne].size);
    }
  }

  /** The gc step has a block to move: the block after firstfree is allocated. */
  ghost predicate NextIsAllocated(a: Arena)
  {
    a.firstfree < |a.e| && NextBlock(a) < |a.e| && a.e[NextBlock(a)].ref != URIPOS_INVALID
  }

  /** memmove of n cells from src down to dst, one cell at a time from the
      top; MovedDown says what it computes. */
  ghost function MoveDown(s: seq<Hdr>, dst: nat, src: nat, n: nat): (t: seq<Hdr>)
    requires dst <= src && src + n <= |s|
    ensures |t| == |s|
    decreases n
  {
    if n == 0 then s else MoveDown(s, dst, src, n - 1)[dst + n - 1 := s[src + n - 1]]
  }

  /** Cell k after moving n cells from src down to dst. */
  ghost function Moved(s: seq<Hdr>, dst: nat, src: nat, n: nat, k: nat): Hdr
    requires dst <= src && src + n <= |s| && k < |s|
  {
    if dst <= k < dst + n then s[k - dst + src] else s[k]
  }

  /** The n cells at dst become those that were at src, and every other
      cell is left as it was. */
  lemma {:induction false} MovedDown(s: seq<Hdr>, dst: nat, src: nat, n: nat)
    requires dst <= src && src + n <= |s|
    ensures forall k: nat :: k < |s| ==> MoveDown(s, dst, src, n)[k] == Moved(s, dst, src, n, k)
    decreases n
  {
    if n > 0 {
      MovedDown(s, dst, src, n - 1);
    }
  }

  /** gc, relocation step: the allocated block after the firstfree block is
      copied down to firstfree, a free block of the old firstfree block's size
      is placed right after it, and firstfree moves to that free block. */
  ghost function Relocate(a: Arena): Arena
    requires Check(a) && a.firstfree != a.openspace && NextIsAllocated(a)
  {
    StepShape(a);
    var ff := a.firstfree;
    var ne := NextBlock(a);
    var c := Cells(a.e[ne].size);
    a.(firstfree := ff + c, e := MoveDown(a.e, ff, ne, c)[ff + c := Hdr(a.e[ff].size, URIPOS_INVALID)])
  }

  /** The relocation step as gc computes it: `ne` from the firstfree
      block's size, the cells to move from alignup of the next block's
      size. */
  lemma RelocateAsComputed(a: Arena, ne: nat, c: nat)
    requires Check(a) && a.firstfree != a.openspace && NextIsAllocated(a)
    requires ne == a.firstfree + a.e[a.firstfree].size / UNIT
    requires ne < |a.e| && a.e[ne].size + UNIT - 1 <= URIPOS_INVALID
    requires c == AlignUp(a.e[ne].size) / UNIT
    ensures ne == NextBlock(a) && c == Cells(a.e[ne].size) && ne + c < |a.e|
    ensures Relocate(a)
            == a.(firstfree := a.firstfree + c,
                  e := MoveDown(a.e, a.firstfree, ne, c)[a.firstfree + c := Hdr(a.e[a.firstfree].size, URIPOS_INVALID)])
  {
    StepShape(a);
    CellsOfAligned(a.e[ne].size);
  }

  lemma RelocateKeepsCheck(a: Arena)
    requires Check(a) && a.firstfree != a.openspace && NextIsAllocated(a)
    ensures Check(Relocate(a))
    ensures Blocks(Relocate(a)) == Blocks(a)
    ensures Relocate(a).firstfree == a.firstfree + Cells(a.e[NextBlock(a)].size)
    ensures IsLive(Relocate(a), a.firstfree)
    ensures BlockCount(Relocate(a).e, Relocate(a).firstfree, Relocate(a).openspace)
            < BlockCount(a.e, a.firstfree, a.openspace)
  {
    StepShape(a);
    var b := Relocate(a);
    var ff, ne := a.firstfree, NextBlock(a);
    var c := Cells(a.e[ne].size);
    MovedDown(a.e, ff, ne, c);
    assert forall k :: 0 <= k < ff ==> b.e[k] == a.e[k];
    assert forall k :: ne + c <= k < |a.e| ==> b.e[k] == a.e[k];
    RelocateMovesBlock(a);
    Relocated(a, b, c);
  }

  /** The relocation step moves the allocated block's cells, header and
      payload, unchanged to firstfree. */
  lemma RelocateMovesContents(a: Arena)
    requires Check(a) && a.firstfree != a.openspace && NextIsAllocated(a)
    ensures NextBlock(a) + Cells(a.e[NextBlock(a)].size) <= a.openspace
    ensures Relocate(a).firstfree == a.firstfree + Cells(a.e[NextBlock(a)].size)
    ensures forall k :: a.firstfree <= k < Relocate(a).firstfree ==>
              Relocate(a).e[k] == a.e[k - a.firstfree + NextBlock(a)]
  {
    StepShape(a);
    MovedDown(a.e, a.firstfree, NextBlock(a), Cells(a.e[NextBlock(a)].size));
  }

  /** The relocation step moves the allocated block as its owner sees it:
      the block at the old firstfree afterwards has the tag, the size and
      the payload that the block after the firstfree block had. */
  lemma RelocateMovesBlock(a: Arena)
    requires Check(a) && a.firstfree != a.openspace && NextIsAllocated(a)
    ensures a.firstfree < |Relocate(a).e|
    ensures BlockAt(Relocate(a).e, a.firstfree) == BlockAt(a.e, NextBlock(a))
  {
    StepShape(a);
    RelocateMovesContents(a);
    MovedBlock(a.e, Relocate(a).e, a.firstfree, NextBlock(a), Cells(a.e[NextBlock(a)].size));
  }

  /** After the relocation step the walk from 0 still reaches the end of the
      block that was moved, and the cells from there on are as they were. */
  lemma RelocateSkips(a: Arena)
    requires Check(a) && a.firstfree != a.openspace && NextIsAllocated(a)
    ensures NextBlock(a) + Cells(a.e[NextBlock(a)].size) <= |a.e|
    ensures Pending(Relocate(a).e, 0, NextBlock(a) + Cells(a.e[NextBlock(a)].size))
    ensures forall k :: NextBlock(a) + Cells(a.e[NextBlock(a)].size) <= k < |a.e| ==>
              Relocate(a).e[k] == a.e[k]
  {
    StepShape(a);
    RelocateKeepsCheck(a);
    RelocateFrame(a);
    CellsOfMultiple(a.e[a.firstfree].size);
    var b := Relocate(a);
    WalkPast(b.e, b.firstfree, b.openspace, NextBlock(a) + Cells(a.e[NextBlock(a)].size));
  }

  /** The relocation step writes the free header right after the moved
      block and leaves the cells after the moved block's old place as they
      were. */
  lemma RelocateFrame(a: Arena)
    requires Check(a) && a.firstfree != a.openspace && NextIsAllocated(a)
    ensures NextBlock(a) + Cells(a.e[NextBlock(a)].size) <= a.openspace
    ensures Relocate(a).firstfree == a.firstfree + Cells(a.e[NextBlock(a)].size) < a.openspace
    ensures Relocate(a).openspace == a.openspace
    ensures Relocate(a).e[Relocate(a).firstfree] == Hdr(a.e[a.firstfree].size, URIPOS_INVALID)
    ensures forall k :: NextBlock(a) + Cells(a.e[NextBlock(a)].size) <= k < |a.e| ==>
              Relocate(a).e[k] == a.e[k]
  {
    StepShape(a);
    MovedDown(a.e, a.firstfree, NextBlock(a), Cells(a.e[NextBlock(a)].size));
  }

  /** A compacted run to f followed by a pending run from f reaches the end
      of the block at f. */
  lemma WalkPast(t: seq<Hdr>, f: nat, o: nat, n: nat)
    requires Compacted(t, 0, f) && Pending(t, f, o) && f < o && f < |t|
    requires n == f + Cells(t[f].size)
    ensures Pending(t, 0, n)
  {
    CompactedIsPending(t, 0, f);
    PendingStep(t, f, n, o);
    PendingCons(t, f, n, n);
    PendingJoin(t, 0, f, n);
  }

  /** The relocation step leaves an allocated block after the moved block's
      old place where it is, header and payload. */
  lemma RelocateKeepsAfter(a: Arena, p: nat)
    requires Check(a) && a.firstfree != a.openspace && NextIsAllocated(a) && IsLive(a, p)
    requires Pending(a.e, NextBlock(a) + Cells(a.e[NextBlock(a)].size), p)
    ensures IsLive(Relocate(a), p) && BlockAt(Relocate(a).e, p) == BlockAt(a.e, p)
  {
    LiveEnds(a, p);
    RelocateSkips(a);
    RelocateFrame(a);
    KeptBlock(a, Relocate(a), p, NextBlock(a) + Cells(a.e[NextBlock(a)].size), |a.e|);
  }

  /** An allocated block ends at or below the open space. */
  lemma LiveEnds(a: Arena, p: nat)
    requires Check(a) && IsLive(a, p)
    ensures p < p + Cells(a.e[p].size) <= a.openspace
  {
    LiveBlock(a, p);
    CellsBound(a.e[p].size);
  }

  /** An allocated block whose walk from 0 is rebuilt up to lo in the new
      cells, and whose cells from lo to hi are left as they were, is still
      allocated there, header and payload unchanged. */
  lemma KeptBlock(a: Arena, b: Arena, p: nat, lo: nat, hi: nat)
    requires IsLive(a, p) && p < b.openspace
    requires Pending(b.e, 0, lo) && Pending(a.e, lo, p)
    requires p < hi && p + Cells(a.e[p].size) <= hi <= |a.e| && hi <= |b.e|
    requires forall k :: lo <= k < hi ==> b.e[k] == a.e[k]
    ensures IsLive(b, p) && BlockAt(b.e, p) == BlockAt(a.e, p)
  {
    PendingOrdered(a.e, lo, p);
    PendingCopy(a.e, b.e, lo, p);
    PendingJoin(b.e, 0, lo, p);
    PayloadFrame(a.e, b.e, p, Cells(a.e[p].size), hi);
  }

  /** A block whose c cells are copied from ne to ff is the same block there,
      header and payload. */
  lemma MovedBlock(s: seq<Hdr>, t: seq<Hdr>, ff: nat, ne: nat, c: nat)
    requires ne < |s| && 0 < s[ne].size && c == Cells(s[ne].size) && ne + c <= |s| && ff + c <= |t|
    requires forall k :: ff <= k < ff + c ==> t[k] == s[k - ff + ne]
    ensures ff < |t| && BlockAt(t, ff) == BlockAt(s, ne)
  {
    CellsBound(s[ne].size);
    assert t[ff] == s[ne];
    assert t[ff + 1 .. ff + c] == s[ne + 1 .. ne + c];
  }

  /** RelocateKeepsCheck with the relocated arena given by its fields. */
  lemma Relocated(a: Arena, b: Arena, c: nat)
    requires Check(a) && a.firstfree != a.openspace && NextIsAllocated(a)
    requires c == Cells(a.e[NextBlock(a)].size)
    requires b.size == a.size && b.sentinel == a.sentinel && b.openspace == a.openspace
    requires b.freespace == a.freespace && b.firstfree == a.firstfree + c
    requires |b.e| == |a.e| && a.firstfree + c < |a.e|
    requires b.e[a.firstfree + c] == Hdr(a.e[a.firstfree].size, URIPOS_INVALID)
    requires forall k :: 0 <= k < a.firstfree ==> b.e[k] == a.e[k]
    requires b.e[a.firstfree] == a.e[NextBlock(a)] && NextBlock(a) < |a.e|
    requires BlockAt(b.e, a.firstfree) == BlockAt(a.e, NextBlock(a))
    requires forall k :: NextBlock(a) + c <= k < |a.e| ==> b.e[k] == a.e[k]
    ensures Check(b) && Blocks(b) == Blocks(a) && IsLive(b, a.firstfree)
    ensures BlockCount(b.e, b.firstfree, b.openspace) < BlockCount(a.e, a.firstfree, a.openspace)
  {
    RelocatedCheck(a, b, c);
    RelocatedList(a, b.e, c);
  }

  /** The consistency part of Relocated. */
  lemma RelocatedCheck(a: Arena, b: Arena, c: nat)
    requires Check(a) && a.firstfree != a.openspace && NextIsAllocated(a)
    requires c == Cells(a.e[NextBlock(a)].size)
    requires b.size == a.size && b.sentinel == a.sentinel && b.openspace == a.openspace
    requires b.freespace == a.freespace && b.firstfree == a.firstfree + c
    requires |b.e| == |a.e| && a.firstfree + c < |a.e|
    requires b.e[a.firstfree + c] == Hdr(a.e[a.firstfree].size, URIPOS_INVALID)
    requires forall k :: 0 <= k < a.firstfree ==> b.e[k] == a.e[k]
    requires b.e[a.firstfree] == a.e[NextBlock(a)] && NextBlock(a) < |a.e|
    requires forall k :: NextBlock(a) + c <= k < |a.e| ==> b.e[k] == a.e[k]
    ensures Check(b) && IsLive(b, a.firstfree)
    ensures BlockCount(b.e, b.firstfree, b.openspace) < BlockCount(a.e, a.firstfree, a.openspace)
  {
    StepShape(a);
    var s, t := a.e, b.e;
    var ff, ne, o := a.firstfree, NextBlock(a), a.openspace;
    RelocatedCells(s, t, ff, ne, o, c);
    assert ff + c <= ne + c <= o <= a.sentinel;
    assert t[o] == s[o] && t[a.sentinel] == s[a.sentinel];
    RelocatedArena(a, b);
  }

  /** The block-list part of Relocated: the moved block, header and
      payload, takes the same place in the list. */
  lemma RelocatedList(a: Arena, t: seq<Hdr>, c: nat)
    requires Check(a) && a.firstfree != a.openspace && NextIsAllocated(a)
    requires c == Cells(a.e[NextBlock(a)].size)
    requires |t| == |a.e| && a.firstfree + c < |a.e| && Pending(t, a.firstfree + c, a.openspace)
    requires t[a.firstfree + c] == Hdr(a.e[a.firstfree].size, URIPOS_INVALID)
    requires forall k :: 0 <= k < a.firstfree ==> t[k] == a.e[k]
    requires t[a.firstfree] == a.e[NextBlock(a)] && NextBlock(a) < |a.e|
    requires BlockAt(t, a.firstfree) == BlockAt(a.e, NextBlock(a))
    requires forall k :: NextBlock(a) + c <= k < |a.e| ==> t[k] == a.e[k]
    ensures a.openspace <= |t| && Pending(t, 0, a.openspace) && Live(t, 0, a.openspace) == Blocks(a)
  {
    StepShape(a);
    var ff, ne, o := a.firstfree, NextBlock(a), a.openspace;
    assert ne < o;
    PendingStep(a.e, ne, ne + c, o);
    CompactedIsPending(a.e, 0, ff);
    RelocatedBlocks(a.e, t, ff, ne, o, c);
  }

  /** The walk over the relocated cells as a whole. */
  lemma RelocatedCells(s: seq<Hdr>, t: seq<Hdr>, ff: nat, ne: nat, o: nat, c: nat)
    requires Compacted(s, 0, ff) && Pending(s, ff, o) && ff < ne < o <= |s| == |t|
    requires s[ff].ref == URIPOS_INVALID && WellFormed(s[ff]) && ne == ff + s[ff].size / UNIT
    requires s[ne].ref != URIPOS_INVALID && WellFormed(s[ne]) && c == Cells(s[ne].size)
    requires ne + c <= o && Pending(s, ne + c, o)
    requires t[ff] == s[ne] && t[ff + c] == Hdr(s[ff].size, URIPOS_INVALID)
    requires forall k :: 0 <= k < ff ==> t[k] == s[k]
    requires forall k :: ne + c <= k < |s| ==> t[k] == s[k]
    ensures Compacted(t, 0, ff + c) && Pending(t, 0, ff)
    ensures Pending(t, ff + c, o) && FreeBytes(t, ff + c, o) == FreeBytes(s, ff, o)
    ensures BlockCount(t, ff + c, o) < BlockCount(s, ff, o)
  {
    RelocatedWalk(s, t, ff, ne, c);
    RelocatedRun(s, t, ff, ne, o, c);
  }

  /** The blocks along the relocated walk are those along the old one. */
  lemma RelocatedBlocks(s: seq<Hdr>, t: seq<Hdr>, ff: nat, ne: nat, o: nat, c: nat)
    requires Pending(s, 0, ff) && Pending(s, ff, o) && ff < ne < o <= |s| == |t|
    requires s[ff].ref == URIPOS_INVALID && WellFormed(s[ff]) && ne == ff + s[ff].size / UNIT
    requires s[ne].ref != URIPOS_INVALID && WellFormed(s[ne]) && c == Cells(s[ne].size)
    requires ne + c <= o && Pending(s, ne + c, o) && Pending(t, ff + c, o)
    requires t[ff] == s[ne] && t[ff + c] == Hdr(s[ff].size, URIPOS_INVALID)
    requires BlockAt(t, ff) == BlockAt(s, ne)
    requires forall k :: 0 <= k < ff ==> t[k] == s[k]
    requires forall k :: ne + c <= k < |s| ==> t[k] == s[k]
    ensures Pending(s, 0, o) && Pending(t, 0, o) && Live(t, 0, o) == Live(s, 0, o)
  {
    PendingFrame(s, t, ne + c, o);
    RelocatedLiveTail(s, t, ff, ne, o, c);
    RelocatedLive(s, t, ff, o);
  }

  /** The walk over the relocated cells, up to the moved block: it extends
      the compacted run. */
  lemma RelocatedWalk(s: seq<Hdr>, t: seq<Hdr>, ff: nat, ne: nat, c: nat)
    requires Compacted(s, 0, ff) && ff < ne < |s| == |t|
    requires s[ne].ref != URIPOS_INVALID && WellFormed(s[ne]) && c == Cells(s[ne].size)
    requires t[ff] == s[ne]
    requires forall k :: 0 <= k < ff ==> t[k] == s[k]
    ensures Compacted(t, 0, ff + c) && Pending(t, 0, ff)
  {
    CompactedFrame(s, t, 0, ff);
    CompactedIsPending(t, 0, ff);
    CompactedCons(t, ff, ff + c, ff + c);
    CompactedConcat(t, 0, ff, ff + c);
  }

  /** The walk over the relocated cells, from the free block placed after
      the moved block: it spans up to where the moved block used to end, so
      the free bytes are unchanged and one block fewer is passed. */
  lemma RelocatedRun(s: seq<Hdr>, t: seq<Hdr>, ff: nat, ne: nat, o: nat, c: nat)
    requires Pending(s, ff, o) && ff < ne < o <= |s| == |t|
    requires s[ff].ref == URIPOS_INVALID && WellFormed(s[ff]) && ne == ff + s[ff].size / UNIT
    requires s[ne].ref != URIPOS_INVALID && c == Cells(s[ne].size)
    requires ne + c <= o && Pending(s, ne + c, o)
    requires t[ff + c] == Hdr(s[ff].size, URIPOS_INVALID)
    requires forall k :: ne + c <= k < |s| ==> t[k] == s[k]
    ensures Pending(t, ff + c, o)
    ensures FreeBytes(t, ff + c, o) == FreeBytes(s, ff, o)
    ensures BlockCount(t, ff + c, o) < BlockCount(s, ff, o)
  {
    CellsOfMultiple(s[ff].size);
    PendingFrame(s, t, ne + c, o);
    PendingCons(t, ff + c, ne + c, o);
    PendingFirst(t, ff + c, ne + c, o);
    PendingFirst(s, ff, ne, o);
    PendingFirst(s, ne, ne + c, o);
  }

  /** The blocks along the relocated walk are those along the old one. */
  lemma RelocatedLive(s: seq<Hdr>, t: seq<Hdr>, ff: nat, o: nat)
    requires Pending(s, 0, ff) && Pending(s, ff, o) && Pending(t, ff, o) && ff <= o <= |s| == |t|
    requires Live(t, ff, o) == Live(s, ff, o)
    requires forall k :: 0 <= k < ff ==> t[k] == s[k]
    ensures Pending(s, 0, o) && Pending(t, 0, o) && Live(t, 0, o) == Live(s, 0, o)
  {
    PendingFrame(s, t, 0, ff);
    PendingConcat(t, 0, ff, o);
    PendingConcat(s, 0, ff, o);
  }

  /** From the old firstfree on, the relocated walk passes the moved block
      and then the same blocks as the old one. */
  lemma RelocatedLiveTail(s: seq<Hdr>, t: seq<Hdr>, ff: nat, ne: nat, o: nat, c: nat)
    requires Pending(s, ff, o) && ff < ne < o <= |s| == |t|
    requires s[ff].ref == URIPOS_INVALID && WellFormed(s[ff]) && ne == ff + s[ff].size / UNIT
    requires s[ne].ref != URIPOS_INVALID && WellFormed(s[ne]) && c == Cells(s[ne].size)
    requires ne + c <= o && Pending(s, ne + c, o)
    requires Pending(t, ff + c, o) && Pending(t, ne + c, o)
    requires Live(t, ne + c, o) == Live(s, ne + c, o)
    requires t[ff] == s[ne] && t[ff + c] == Hdr(s[ff].size, URIPOS_INVALID)
    requires BlockAt(t, ff) == BlockAt(s, ne)
    ensures Pending(t, ff, o) && Live(t, ff, o) == Live(s, ff, o)
  {
    CellsOfMultiple(s[ff].size);
    PendingCons(t, ff, ff + c, o);
    PendingFirst(t, ff, ff + c, o);
    PendingFirst(t, ff + c, ne + c, o);
    PendingFirst(s, ff, ne, o);
    PendingFirst(s, ne, ne + c, o);
  }

  /** The consistency part of RelocateKeepsCheck. */
  lemma RelocatedArena(a: Arena, b: Arena)
    requires Check(a)
    requires b.size == a.size && b.sentinel == a.sentinel && b.openspace == a.openspace
    requires b.freespace == a.freespace && |b.e| == |a.e|
    requires b.e[a.sentinel] == a.e[a.sentinel] && b.e[a.openspace] == a.e[a.openspace]
    requires b.firstfree <= b.openspace && b.e[b.firstfree] == Hdr(a.e[a.firstfree].size, URIPOS_INVALID)
    requires Compacted(b.e, 0, b.firstfree) && Pending(b.e, b.firstfree, b.openspace)
    requires FreeBytes(b.e, b.firstfree, b.openspace) == FreeBytes(a.e, a.firstfree, a.openspace)
    ensures Check(b)
  {}

  /** gc, merge step: the free block after the firstfree block is absorbed
      into it; if it was the open space block, the open space moves back to
      firstfree. */
  ghost function Merge(a: Arena): Arena
    requires Check(a) && a.firstfree != a.openspace && !NextIsAllocated(a)
  {
    StepShape(a);
    var ff := a.firstfree;
    var ne := NextBlock(a);
    a.(openspace := if ne == a.openspace then ff else a.openspace,
       e := a.e[ff := Hdr(a.e[ff].size + a.e[ne].size, URIPOS_INVALID)])
  }

  /** After the merge step the walk from 0 still reaches the end of the
      free block that was absorbed, and the cells from there on are as they
      were. */
  lemma MergeSkips(a: Arena)
    requires Check(a) && a.firstfree != a.openspace && !NextIsAllocated(a)
    ensures NextBlock(a) < |a.e|
    ensures NextBlock(a) + Cells(a.e[NextBlock(a)].size) <= |a.e|
    ensures Pending(Merge(a).e, 0, NextBlock(a) + Cells(a.e[NextBlock(a)].size))
    ensures forall k :: NextBlock(a) + Cells(a.e[NextBlock(a)].size) <= k < |a.e| ==>
              Merge(a).e[k] == a.e[k]
  {
    StepShape(a);
    var ff, ne := a.firstfree, NextBlock(a);
    CellsOfMultiple(a.e[ne].size);
    MergedPrefix(a.e, ff, ne);
    assert Merge(a).e == a.e[ff := Hdr(a.e[ff].size + a.e[ne].size, URIPOS_INVALID)];
  }

  /** The merge step leaves an allocated block after the absorbed block
      where it is, header and payload. */
  lemma MergeKeepsAfter(a: Arena, p: nat)
    requires Check(a) && a.firstfree != a.openspace && !NextIsAllocated(a) && IsLive(a, p)
    requires NextBlock(a) < |a.e| && Pending(a.e, NextBlock(a) + Cells(a.e[NextBlock(a)].size), p)
    ensures IsLive(Merge(a), p) && BlockAt(Merge(a).e, p) == BlockAt(a.e, p)
  {
    LiveEnds(a, p);
    MergeSkips(a);
    PendingOrdered(a.e, NextBlock(a) + Cells(a.e[NextBlock(a)].size), p);
    CellsBound(a.e[NextBlock(a)].size);
    KeptBlock(a, Merge(a), p, NextBlock(a) + Cells(a.e[NextBlock(a)].size), |a.e|);
  }

  /** Absorbing the free block at ne into the free block at ff, right
      before it, keeps a walk from 0 through the combined block. */
  lemma MergedPrefix(s: seq<Hdr>, ff: nat, ne: nat)
    requires Compacted(s, 0, ff) && ff < ne < |s| && ne == ff + Cells(s[ff].size)
    requires s[ff].size > UNIT && s[ff].size % UNIT == 0 && s[ne].size % UNIT == 0
    ensures Pending(s[ff := Hdr(s[ff].size + s[ne].size, URIPOS_INVALID)], 0, ne + Cells(s[ne].size))
  {
    var t := s[ff := Hdr(s[ff].size + s[ne].size, URIPOS_INVALID)];
    CellsOfSum(s[ff].size, s[ne].size);
    CompactedFrame(s, t, 0, ff);
    WalkOver(t, ff, ne + Cells(s[ne].size));
  }

  /** A compacted run to f followed by a well-formed block at f reaches the
      end of that block. */
  lemma WalkOver(t: seq<Hdr>, f: nat, n: nat)
    requires Compacted(t, 0, f) && f < |t| && WellFormed(t[f]) && n == f + Cells(t[f].size)
    ensures Pending(t, 0, n)
  {
    CompactedIsPending(t, 0, f);
    PendingCons(t, f, n, n);
    PendingJoin(t, 0, f, n);
  }

  lemma MergeKeepsCheck(a: Arena)
    requires Check(a) && a.firstfree != a.openspace && !NextIsAllocated(a)
    ensures Check(Merge(a))
    ensures Blocks(Merge(a)) == Blocks(a)
    ensures BlockCount(Merge(a).e, Merge(a).firstfree, Merge(a).openspace)
            < BlockCount(a.e, a.firstfree, a.openspace)
  {
    StepShape(a);
    var b := Merge(a);
    var ff := a.firstfree;
    assert forall k :: 0 <= k < |a.e| && k != ff ==> b.e[k] == a.e[k];
    Merged(a, b);
  }

  /** MergeKeepsCheck with the merged arena given by its fields. */
  lemma Merged(a: Arena, b: Arena)
    requires Check(a) && a.firstfree != a.openspace && !NextIsAllocated(a)
    requires b.size == a.size && b.sentinel == a.sentinel
    requires b.freespace == a.freespace && b.firstfree == a.firstfree
    requires b.openspace == if NextBlock(a) == a.openspace then a.firstfree else a.openspace
    requires |b.e| == |a.e| && NextBlock(a) < |a.e|
    requires b.e[a.firstfree] == Hdr(a.e[a.firstfree].size + a.e[NextBlock(a)].size, URIPOS_INVALID)
    requires forall k :: 0 <= k < |a.e| && k != a.firstfree ==> b.e[k] == a.e[k]
    ensures Check(b) && Blocks(b) == Blocks(a)
    ensures BlockCount(b.e, b.firstfree, b.openspace) < BlockCount(a.e, a.firstfree, a.openspace)
  {
    StepShape(a);
    var s, t := a.e, b.e;
    var ff, ne, o := a.firstfree, NextBlock(a), a.openspace;
    CheckedWalk(a);
    CompactedFrame(s, t, 0, ff);
    CompactedIsPending(t, 0, ff);
    if ne == o {
      MergedEnd(s, ff, o);
      MergedEndArena(a, b);
    } else {
      MergedRun(s, t, ff, ne, o);
      MergedArena(a, b);
    }
    MergedLive(s, t, ff, o, b.openspace);
    SameBlocks(a, b, []);
  }

  /** A free block at ff that reaches o is the whole walk from ff to o. */
  lemma MergedEnd(s: seq<Hdr>, ff: nat, o: nat)
    requires Pending(s, ff, o) && ff < o <= |s|
    requires s[ff].ref == URIPOS_INVALID && o == ff + Cells(s[ff].size)
    ensures FreeBytes(s, ff, o) == s[ff].size && Live(s, ff, o) == []
    ensures BlockCount(s, ff, o) == 1
  {
    PendingFirst(s, ff, o, o);
  }

  /** Two free blocks at ff and ne merged into one at ff: the walk from ff
      passes one block fewer, the same free bytes and the same live blocks. */
  lemma MergedRun(s: seq<Hdr>, t: seq<Hdr>, ff: nat, ne: nat, o: nat)
    requires Pending(s, ff, o) && ff < ne < o <= |s| == |t|
    requires s[ff].ref == URIPOS_INVALID && ne == ff + Cells(s[ff].size)
    requires s[ne].ref == URIPOS_INVALID
    requires t[ff] == Hdr(s[ff].size + s[ne].size, URIPOS_INVALID)
    requires forall k :: 0 <= k < |s| && k != ff ==> t[k] == s[k]
    ensures Pending(t, ff, o)
    ensures FreeBytes(t, ff, o) == FreeBytes(s, ff, o)
    ensures Live(t, ff, o) == Live(s, ff, o)
    ensures BlockCount(t, ff, o) < BlockCount(s, ff, o)
  {
    var r := ne + Cells(s[ne].size);
    MergedPair(s, ff, ne, r, o);
    CellsOfSum(s[ff].size, s[ne].size);
    PendingFrame(s, t, r, o);
    var h := t[ff];
    assert h.size == s[ff].size + s[ne].size && h.ref == URIPOS_INVALID;
    assert WellFormed(h) && r == ff + Cells(h.size);
    PendingCons(t, ff, r, o);
    PendingFirst(t, ff, r, o);
  }

  /** The walk from ff over two free blocks, at ff and ne, ending at r. */
  lemma MergedPair(s: seq<Hdr>, ff: nat, ne: nat, r: nat, o: nat)
    requires Pending(s, ff, o) && ff < ne < o <= |s|
    requires s[ff].ref == URIPOS_INVALID && ne == ff + Cells(s[ff].size)
    requires s[ne].ref == URIPOS_INVALID && r == ne + Cells(s[ne].size)
    ensures WellFormed(s[ff]) && WellFormed(s[ne]) && r <= o && Pending(s, r, o)
    ensures FreeBytes(s, ff, o) == s[ff].size + s[ne].size + FreeBytes(s, r, o)
    ensures Live(s, ff, o) == Live(s, r, o)
    ensures BlockCount(s, ff, o) == 2 + BlockCount(s, r, o)
  {
    PendingFirst(s, ff, ne, o);
    PendingFirst(s, ne, r, o);
  }

  /** Two free blocks side by side take as many cells as one of their
      combined size. */
  lemma CellsOfSum(x: nat, y: nat)
    requires x % UNIT == 0 && y % UNIT == 0
    ensures Cells(x + y) == Cells(x) + Cells(y) && (x + y) % UNIT == 0
  {
    CellsOfMultiple(x);
    CellsOfMultiple(y);
    MultipleAdd(x, y);
    CellsOfMultiple(x + y);
  }

  /** Below ff nothing changes, so the walk up to the open space lists the
      same blocks. */
  lemma MergedLive(s: seq<Hdr>, t: seq<Hdr>, ff: nat, o: nat, o2: nat)
    requires Pending(s, 0, ff) && Pending(s, ff, o) && Pending(t, ff, o2) && o <= |s| == |t| && o2 <= |t|
    requires Live(t, ff, o2) == Live(s, ff, o)
    requires forall k :: 0 <= k < |s| && k != ff ==> t[k] == s[k]
    ensures Pending(s, 0, o) && Pending(t, 0, o2) && Live(t, 0, o2) == Live(s, 0, o)
  {
    PendingOrdered(s, ff, o);
    PendingFrame(s, t, 0, ff);
    PendingConcat(t, 0, ff, o2);
    PendingConcat(s, 0, ff, o);
  }

  /** The consistency part of Merged when the open space block is absorbed. */
  lemma MergedEndArena(a: Arena, b: Arena)
    requires Check(a) && a.firstfree != a.openspace && !NextIsAllocated(a)
    requires NextBlock(a) == a.openspace && a.firstfree + Cells(a.e[a.firstfree].size) == a.openspace
    requires FreeBytes(a.e, a.firstfree, a.openspace) == a.e[a.firstfree].size
    requires b.size == a.size && b.sentinel == a.sentinel
    requires b.freespace == a.freespace && b.firstfree == a.firstfree && b.openspace == a.firstfree
    requires |b.e| == |a.e|
    requires b.e[a.firstfree] == Hdr(a.e[a.firstfree].size + a.e[a.openspace].size, URIPOS_INVALID)
    requires b.e[a.sentinel] == a.e[a.sentinel]
    requires Compacted(b.e, 0, b.firstfree)
    ensures Check(b)
  {
    MultipleAdd(a.e[a.firstfree].size, a.e[a.openspace].size);
  }

  /** The consistency part of Merged when two blocks below the open space
      are merged. */
  lemma MergedArena(a: Arena, b: Arena)
    requires Check(a)
    requires b.size == a.size && b.sentinel == a.sentinel
    requires b.freespace == a.freespace && b.firstfree == a.firstfree && b.openspace == a.openspace
    requires |b.e| == |a.e| && a.firstfree < a.openspace
    requires b.e[a.firstfree].ref == URIPOS_INVALID
    requires b.e[a.firstfree].size % UNIT == 0
    requires b.e[a.sentinel] == a.e[a.sentinel] && b.e[a.openspace] == a.e[a.openspace]
    requires Compacted(b.e, 0, b.firstfree) && Pending(b.e, b.firstfree, b.openspace)
    requires FreeBytes(b.e, b.firstfree, b.openspace) == FreeBytes(a.e, a.firstfree, a.openspace)
    ensures Check(b)
  {}
}
