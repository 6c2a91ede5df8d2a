/**
 * The incremental compacting block allocator: the arena object with its
 * administrative fields and its array of cells, and the operations init,
 * alloc, free, getsize and gc that update it in place.
 *
 * Each operation is proved against a function on arena values from module
 * IcgcbLayout (through View()), and what the allocator promises is proved
 * about those functions.
 */
module Icgcb {
  import opened IcgcbLayout

  /** enum icgcb_alloc_result; on success, the payload pointer as the index
      of the payload's first cell (the header's index plus one). */
  datatype AllocResult = Ok(ptr: nat) | Again | NoSpace

  /** One call of move_cb: the moved block's tag and its new payload
      pointer. */
  datatype Move = Move(ref: nat, ptr: nat)

  /** One turn of gc's loop: the arena after it, the moves it reports and
      the bytes it moves. */
  datatype Turn = Turn(arena: Arena, moves: seq<Move>, moved: nat)

  /** Moves reported in turn, grouped either way. */
  lemma Regroup(a: seq<Move>, b: seq<Move>, c: seq<Move>)
    ensures a + (b + c) == (a + b) + c
    ensures [] + c == c && a + [] == a
  {
  }

  /** A run of gc's loop: the arena it leaves and the moves it reports. */
  datatype Run = Run(arena: Arena, moves: seq<Move>)

  /** Cell q of b is the header of the allocated block x: its tag, its size
      and its payload. */
  ghost predicate Holds(b: Arena, q: nat, x: Block)
  {
    IsLive(b, q) && BlockAt(b.e, q) == x
  }

  /** Block x, allocated at cell p before some steps of gc, is afterwards
      either still at p, or at ptr - 1 of a move reported with its tag. */
  ghost predicate Kept(b: Arena, moves: seq<Move>, p: nat, x: Block)
  {
    || Holds(b, p, x)
    || exists m :: m in moves && 1 <= m.ptr && m.ref == x.ref && Holds(b, m.ptr - 1, x)
  }

  /** Move m points at an allocated block of b with the tag it reports, and
      that block, header and payload, is one of bs. */
  ghost predicate Lands(b: Arena, m: Move, bs: seq<Block>)
  {
    && 1 <= m.ptr && IsLive(b, m.ptr - 1) && b.e[m.ptr - 1].ref == m.ref
    && BlockAt(b.e, m.ptr - 1) in bs
  }

  /** A block kept by later moves is kept by those moves reported after
      earlier ones. */
  lemma KeptLater(b: Arena, first: seq<Move>, moves: seq<Move>, p: nat, x: Block)
    requires Kept(b, moves, p, x)
    ensures Kept(b, first + moves, p, x)
  {
    if !Holds(b, p, x) {
      var m :| m in moves && 1 <= m.ptr && m.ref == x.ref && Holds(b, m.ptr - 1, x);
      assert m in first + moves;
    }
  }

  /** A block at ptr - 1 of a reported move is kept by any longer report. */
  lemma KeptMoved(b: Arena, moves: seq<Move>, later: seq<Move>, p: nat, x: Block, m: Move)
    requires m in moves && 1 <= m.ptr && m.ref == x.ref && Holds(b, m.ptr - 1, x)
    ensures Kept(b, moves + later, p, x)
  {
    assert m in moves + later;
  }

  /** The tags of a list of blocks. */
  ghost function Refs(bs: seq<Block>): set<nat>
  {
    set b | b in bs :: b.ref
  }

  // ---------------------------------------------------------------------
  // init

  /** The arena as init leaves it for a buffer of `bytes` bytes: the free
      space is what lies between the administrative part and one trailing
      header, rounded down to whole cells; cell 0 is one free block of all
      of it, and the sentinel follows it. */
  ghost predicate IsInitial(a: Arena, bytes: nat)
  {
    && SIZEOF_ICGCB <= bytes
    && a.freespace == AlignDown(bytes - ADMIN - UNIT)
    && a.size == a.freespace + ADMIN + UNIT
    && a.firstfree == 0 && a.openspace == 0
    && a.sentinel == a.freespace / UNIT
    && |a.e| == a.sentinel + 1
    && a.e[0] == Hdr(a.freespace, URIPOS_INVALID)
    && a.e[a.sentinel] == Hdr(0, URIPOS_INVALID)
  }

  /** init establishes check, with no block allocated and the whole free
      space in the open space block. */
  lemma InitialIsEmpty(a: Arena, bytes: nat)
    requires IsInitial(a, bytes) && bytes < AlignDown(URIPOS_INVALID) - UNIT
    ensures Check(a) && Blocks(a) == [] && AllocatedBytes(a) == 0
    ensures a.e[a.openspace].size == a.freespace && a.size <= bytes
  {
    CheckedWalk(a);
  }

  // ---------------------------------------------------------------------
  // alloc

  /** alloc: refused for lack of free space, refused until the collector has
      compacted enough, or carved from the open space block. */
  ghost function Allocate(a: Arena, sz: nat, ref: nat): (AllocResult, Arena)
    requires Check(a) && 0 < sz < a.size
  {
    var sizeA := UNIT + AlignUp(sz);
    if a.freespace < sizeA then (NoSpace, a)
    else if a.e[a.openspace].size < sizeA then (Again, a)
    else (Ok(a.openspace + 1), Carve(a, sz, ref))
  }

  /** What alloc promises: the two refusals leave the arena alone; success
      hands out the low end of the open space block as a block of
      UNIT + sz bytes tagged ref, takes UNIT + alignup(sz) bytes of free
      space, and moves the open space up (onto the sentinel when nothing is
      left of it), dragging firstfree along only if it was there.  check
      holds in every case, and the list of blocks gains exactly the new
      one. */
  lemma AllocateKeepsCheck(a: Arena, sz: nat, ref: nat)
    requires Check(a) && 0 < sz < a.size && ref != URIPOS_INVALID
    ensures var (res, b) := Allocate(a, sz, ref);
            && Check(b)
            && (res == NoSpace <==> a.freespace < UNIT + AlignUp(sz))
            && (res == Again <==> UNIT + AlignUp(sz) <= a.freespace
                                  && a.e[a.openspace].size < UNIT + AlignUp(sz))
            && (!res.Ok? ==> b == a)
            && (res.Ok? ==>
                  && res.ptr == a.openspace + 1
                  && IsLive(b, a.openspace)
                  && b.e[a.openspace] == Hdr(UNIT + sz, ref)
                  && b.freespace == a.freespace - (UNIT + AlignUp(sz))
                  && b.openspace == a.openspace + (UNIT + AlignUp(sz)) / UNIT
                  && (a.e[a.openspace].size - (UNIT + AlignUp(sz)) < UNIT ==> b.openspace == a.sentinel)
                  && (a.firstfree == a.openspace ==> b.firstfree == b.openspace)
                  && (a.firstfree != a.openspace ==> b.firstfree == a.firstfree)
                  && Blocks(b) == Blocks(a) + [Block(ref, UNIT + sz, Payload(a.e, a.openspace, (UNIT + AlignUp(sz)) / UNIT))])
  {
    var sizeA := UNIT + AlignUp(sz);
    if sizeA <= a.freespace && sizeA <= a.e[a.openspace].size {
      CarveBounds(a, sz);
      CarveKeepsCheck(a, sz, ref);
      CellsOfMultiple(a.e[a.openspace].size);
    }
  }

  /** getsize on the block alloc has just handed out yields the size that
      was asked for. */
  lemma AllocThenGetSize(a: Arena, sz: nat, ref: nat)
    requires Check(a) && 0 < sz < a.size && ref != URIPOS_INVALID
    requires Allocate(a, sz, ref).0.Ok?
    ensures var (res, b) := Allocate(a, sz, ref);
            1 <= res.ptr && IsLive(b, res.ptr - 1) && b.e[res.ptr - 1].size - UNIT == sz
  {
    AllocateKeepsCheck(a, sz, ref);
  }

  /** AGAIN is only answered while there is garbage to collect: once
      firstfree has reached the open space, all free space is in the open
      space block. */
  lemma AgainOnlyWithGarbage(a: Arena, sz: nat, ref: nat)
    requires Check(a) && 0 < sz < a.size
    requires Allocate(a, sz, ref).0 == Again
    ensures a.firstfree != a.openspace
  {
  }

  // ---------------------------------------------------------------------
  // gc

  /** One step of gc's loop: relocate the allocated block after the
      firstfree block, reporting it and the bytes it moves, or merge the
      free block after it. */
  ghost function Step(a: Arena): (r: Turn)
    requires Check(a) && a.firstfree != a.openspace
    ensures |r.moves| <= 1
  {
    if NextIsAllocated(a) then
      Turn(Relocate(a), [Move(a.e[NextBlock(a)].ref, a.firstfree + 1)], a.e[NextBlock(a)].size)
    else Turn(Merge(a), [], 0)
  }

  /** Every step keeps check. */
  lemma StepChecks(a: Arena)
    requires Check(a) && a.firstfree != a.openspace
    ensures Check(Step(a).arena)
  {
    if NextIsAllocated(a) {
      RelocateKeepsCheck(a);
    } else {
      MergeKeepsCheck(a);
    }
  }

  /** Every step keeps the allocated blocks and the free space. */
  lemma StepKeepsBlocks(a: Arena)
    requires Check(a) && a.firstfree != a.openspace
    ensures Check(Step(a).arena) && Blocks(Step(a).arena) == Blocks(a)
    ensures Step(a).arena.freespace == a.freespace
  {
    if NextIsAllocated(a) {
      RelocateKeepsCheck(a);
    } else {
      MergeKeepsCheck(a);
    }
  }

  /** Every step reports only allocated blocks. */
  lemma StepReportsBlocks(a: Arena)
    requires Check(a) && a.firstfree != a.openspace
    ensures forall m :: m in Step(a).moves ==> m.ref in Refs(Blocks(a))
  {
    if NextIsAllocated(a) {
      RelocatedIsListed(a);
    }
  }

  /** A step leaves the cells below firstfree as they were and never moves
      firstfree back. */
  lemma StepKeepsBelow(a: Arena)
    requires Check(a) && a.firstfree != a.openspace
    ensures a.firstfree <= Step(a).arena.firstfree && |Step(a).arena.e| == |a.e|
    ensures forall k :: 0 <= k < a.firstfree ==> Step(a).arena.e[k] == a.e[k]
  {
    StepShape(a);
    if NextIsAllocated(a) {
      MovedDown(a.e, a.firstfree, NextBlock(a), Cells(a.e[NextBlock(a)].size));
    }
  }

  /** The move a step reports is of the allocated block after the firstfree
      block, with its tag; afterwards that block, header and payload, is at
      ptr - 1 and ends at the new firstfree. */
  lemma StepMovesBlock(a: Arena)
    requires Check(a) && a.firstfree != a.openspace
    ensures forall m :: m in Step(a).moves ==>
              && IsLive(a, NextBlock(a)) && m.ref == a.e[NextBlock(a)].ref
              && m.ptr == a.firstfree + 1
              && Holds(Step(a).arena, a.firstfree, BlockAt(a.e, NextBlock(a)))
              && a.firstfree + Cells(a.e[NextBlock(a)].size) == Step(a).arena.firstfree
  {
    if NextIsAllocated(a) {
      StepShape(a);
      RelocateKeepsCheck(a);
      RelocateMovesBlock(a);
      CompactedIsPending(a.e, 0, a.firstfree);
      PendingCons(a.e, a.firstfree, NextBlock(a), NextBlock(a));
      PendingJoin(a.e, 0, a.firstfree, NextBlock(a));
    }
  }

  /** Every step keeps every allocated block, header and payload: it stays
      where it was, or it is the block the step moves and reports. */
  lemma StepKeepsContents(a: Arena, p: nat)
    requires Check(a) && a.firstfree != a.openspace && IsLive(a, p)
    ensures Kept(Step(a).arena, Step(a).moves, p, BlockAt(a.e, p))
  {
    StepPlaces(a, p);
    if !Holds(Step(a).arena, p, BlockAt(a.e, p)) {
      KeptMoved(Step(a).arena, Step(a).moves, [], p, BlockAt(a.e, p), Move(a.e[p].ref, a.firstfree + 1));
      assert Step(a).moves + [] == Step(a).moves;
    }
  }

  /** Where a step leaves an allocated block: where it was, or, when it is
      the block the step moves, at the old firstfree, reported by the step's
      one move and ending at or below the new firstfree. */
  lemma StepPlaces(a: Arena, p: nat)
    requires Check(a) && a.firstfree != a.openspace && IsLive(a, p)
    ensures || Holds(Step(a).arena, p, BlockAt(a.e, p))
            || (&& Step(a).moves == [Move(a.e[p].ref, a.firstfree + 1)]
                && Holds(Step(a).arena, a.firstfree, BlockAt(a.e, p))
                && a.firstfree + Cells(a.e[p].size) <= Step(a).arena.firstfree)
  {
    StepShape(a);
    var ff, ne := a.firstfree, NextBlock(a);
    CompactedIsPending(a.e, 0, ff);
    if p < ff {
      StepKeepsLower(a, p);
    } else {
      PendingRest(a.e, 0, ff, p);
      PendingStep(a.e, ff, ne, p);
      if p == ne {
        StepMovesBlock(a);
        assert Move(a.e[ne].ref, ff + 1) in Step(a).moves;
      } else {
        StepKeepsHigher(a, p);
      }
    }
  }

  /** A step leaves an allocated block below firstfree where it is. */
  lemma StepKeepsLower(a: Arena, p: nat)
    requires Check(a) && a.firstfree != a.openspace && IsLive(a, p) && p < a.firstfree
    ensures Holds(Step(a).arena, p, BlockAt(a.e, p))
  {
    StepChecks(a);
    StepKeepsBelow(a);
    CompactedIsPending(a.e, 0, a.firstfree);
    PendingRest(a.e, 0, p, a.firstfree);
    PendingStep(a.e, p, p + Cells(a.e[p].size), a.firstfree);
    KeptBlock(a, Step(a).arena, p, 0, a.firstfree);
  }

  /** A step leaves an allocated block after the block it inspects where it
      is. */
  lemma StepKeepsHigher(a: Arena, p: nat)
    requires Check(a) && a.firstfree != a.openspace && IsLive(a, p)
    requires a.firstfree < |a.e| && NextBlock(a) < p && Pending(a.e, NextBlock(a), p)
    ensures Holds(Step(a).arena, p, BlockAt(a.e, p))
  {
    StepShape(a);
    var ne := NextBlock(a);
    PendingStep(a.e, ne, ne + Cells(a.e[ne].size), p);
    if NextIsAllocated(a) {
      RelocateKeepsAfter(a, p);
    } else {
      MergeKeepsAfter(a, p);
    }
  }

  /** Every step passes one block fewer between firstfree and the open
      space. */
  lemma StepProgress(a: Arena)
    requires Check(a) && a.firstfree != a.openspace
    ensures Check(Step(a).arena)
    ensures BlockCount(Step(a).arena.e, Step(a).arena.firstfree, Step(a).arena.openspace)
            < BlockCount(a.e, a.firstfree, a.openspace)
  {
    if NextIsAllocated(a) {
      RelocateKeepsCheck(a);
    } else {
      MergeKeepsCheck(a);
    }
  }

  /** The block a relocation step reports is one of the allocated blocks. */
  lemma RelocatedIsListed(a: Arena)
    requires Check(a) && a.firstfree != a.openspace && NextIsAllocated(a)
    ensures a.e[NextBlock(a)].ref in Refs(Blocks(a))
  {
    StepShape(a);
    var ff, ne := a.firstfree, NextBlock(a);
    CompactedIsPending(a.e, 0, ff);
    PendingCons(a.e, ff, ne, ne);
    PendingJoin(a.e, 0, ff, ne);
    LiveIsListed(a, ne);
    assert BlockAt(a.e, ne).ref == a.e[ne].ref;
  }

  /** gc's loop from the state where `blocks` blocks have been inspected and
      `bytes` bytes moved: the arena it leaves and the moves it reports. The
      loop condition is split in two, garbage left and budget left, and each
      part is a function of its own. */
  ghost function Collect(a: Arena, blocks: nat, bytes: nat): (r: Run)
    requires Check(a)
    ensures blocks <= MAX_BLOCKS ==> |r.moves| <= MAX_BLOCKS - blocks
    decreases MAX_BLOCKS - blocks, 2
  {
    if a.firstfree == a.openspace then Run(a, []) else CollectBudget(a, blocks, bytes)
  }

  /** gc's loop when there is garbage left: stop when the budget of blocks
      or bytes is spent. */
  ghost function CollectBudget(a: Arena, blocks: nat, bytes: nat): (r: Run)
    requires Check(a) && a.firstfree != a.openspace
    ensures blocks <= MAX_BLOCKS ==> |r.moves| <= MAX_BLOCKS - blocks
    decreases MAX_BLOCKS - blocks, 1
  {
    if blocks >= MAX_BLOCKS || bytes >= MAX_BYTES then Run(a, []) else CollectTurn(a, blocks, bytes)
  }

  /** gc's loop when it takes one more turn: the turn's moves, then the rest
      of the loop. */
  ghost function CollectTurn(a: Arena, blocks: nat, bytes: nat): (r: Run)
    requires Check(a) && a.firstfree != a.openspace && blocks < MAX_BLOCKS
    ensures |r.moves| <= MAX_BLOCKS - blocks
    decreases MAX_BLOCKS - blocks, 0
  {
    StepChecks(a);
    var step := Step(a);
    var rest := Collect(step.arena, blocks + 1, (bytes + step.moved) % 0x1_0000);
    Run(rest.arena, step.moves + rest.moves)
  }

  /** One turn of gc's loop, when there is garbage and budget left: the
      step it takes, and the rest of the loop from the arena it leaves. */
  lemma NextTurn(a: Arena, blocks: nat, bytes: nat) returns (step: Turn, rest: Run)
    requires Check(a) && a.firstfree != a.openspace && blocks < MAX_BLOCKS && bytes < MAX_BYTES
    ensures step == Step(a) && Check(step.arena)
    ensures rest == Collect(step.arena, blocks + 1, (bytes + step.moved) % 0x1_0000)
    ensures Collect(a, blocks, bytes) == Run(rest.arena, step.moves + rest.moves)
  {
    assert Collect(a, blocks, bytes) == CollectTurn(a, blocks, bytes);
    StepChecks(a);
    step := Step(a);
    rest := Collect(step.arena, blocks + 1, (bytes + step.moved) % 0x1_0000);
  }

  /** A gc call leaves an arena that passes check. */
  lemma {:induction false} CollectKeepsCheck(a: Arena, blocks: nat, bytes: nat)
    requires Check(a)
    ensures Check(Collect(a, blocks, bytes).arena)
    decreases MAX_BLOCKS - blocks
  {
    if !(a.firstfree == a.openspace || blocks >= MAX_BLOCKS || bytes >= MAX_BYTES) {
      var step, rest := NextTurn(a, blocks, bytes);
      CollectKeepsCheck(step.arena, blocks + 1, (bytes + step.moved) % 0x1_0000);
    }
  }

  /** A gc call keeps the allocated blocks and the free space. */
  lemma {:induction false} CollectKeepsBlocks(a: Arena, blocks: nat, bytes: nat)
    requires Check(a)
    ensures Check(Collect(a, blocks, bytes).arena)
    ensures Blocks(Collect(a, blocks, bytes).arena) == Blocks(a)
    ensures Collect(a, blocks, bytes).arena.freespace == a.freespace
    decreases MAX_BLOCKS - blocks
  {
    if !(a.firstfree == a.openspace || blocks >= MAX_BLOCKS || bytes >= MAX_BYTES) {
      var step, rest := NextTurn(a, blocks, bytes);
      StepKeepsBlocks(a);
      CollectKeepsBlocks(step.arena, blocks + 1, (bytes + step.moved) % 0x1_0000);
    }
  }

  /** move_cb is called only for allocated blocks. */
  lemma {:induction false} CollectReportsBlocks(a: Arena, blocks: nat, bytes: nat)
    requires Check(a)
    ensures forall m :: m in Collect(a, blocks, bytes).moves ==> m.ref in Refs(Blocks(a))
    decreases MAX_BLOCKS - blocks
  {
    if !(a.firstfree == a.openspace || blocks >= MAX_BLOCKS || bytes >= MAX_BYTES) {
      var step, rest := NextTurn(a, blocks, bytes);
      StepReportsBlocks(a);
      StepKeepsBlocks(a);
      CollectReportsBlocks(step.arena, blocks + 1, (bytes + step.moved) % 0x1_0000);
    }
  }

  /** A gc call leaves the cells below firstfree as they were and never
      moves firstfree back. */
  lemma {:induction false} CollectKeepsBelow(a: Arena, blocks: nat, bytes: nat)
    requires Check(a)
    ensures a.firstfree <= Collect(a, blocks, bytes).arena.firstfree
    ensures |Collect(a, blocks, bytes).arena.e| == |a.e|
    ensures forall k :: 0 <= k < a.firstfree ==> Collect(a, blocks, bytes).arena.e[k] == a.e[k]
    decreases MAX_BLOCKS - blocks
  {
    if !(a.firstfree == a.openspace || blocks >= MAX_BLOCKS || bytes >= MAX_BYTES) {
      var step, rest := NextTurn(a, blocks, bytes);
      StepKeepsBelow(a);
      CollectKeepsBelow(step.arena, blocks + 1, (bytes + step.moved) % 0x1_0000);
    }
  }

  /** A block that ends at or below firstfree stays where it is, header and
      payload, for the rest of the gc call. */
  lemma StaysBelow(a: Arena, blocks: nat, bytes: nat, q: nat, x: Block)
    requires Check(a) && Holds(a, q, x) && q + Cells(x.size) <= a.firstfree
    ensures Holds(Collect(a, blocks, bytes).arena, q, x)
  {
    var b := Collect(a, blocks, bytes).arena;
    LiveBlock(a, q);
    CellsBound(x.size);
    CollectKeepsCheck(a, blocks, bytes);
    CollectKeepsBelow(a, blocks, bytes);
    KeptBlock(a, b, q, 0, a.firstfree);
  }

  /** A gc call keeps every allocated block, header and payload: afterwards
      it is where it was, or at ptr - 1 of a move reported with its tag. */
  lemma {:induction false} CollectKeepsContents(a: Arena, blocks: nat, bytes: nat, p: nat)
    requires Check(a) && IsLive(a, p)
    ensures Kept(Collect(a, blocks, bytes).arena, Collect(a, blocks, bytes).moves, p, BlockAt(a.e, p))
    decreases MAX_BLOCKS - blocks
  {
    var x := BlockAt(a.e, p);
    if !(a.firstfree == a.openspace || blocks >= MAX_BLOCKS || bytes >= MAX_BYTES) {
      var step, rest := NextTurn(a, blocks, bytes);
      var bytes' := (bytes + step.moved) % 0x1_0000;
      StepPlaces(a, p);
      if Holds(step.arena, p, x) {
        CollectKeepsContents(step.arena, blocks + 1, bytes', p);
        KeptLater(rest.arena, step.moves, rest.moves, p, x);
      } else {
        var m := Move(x.ref, a.firstfree + 1);
        StaysBelow(step.arena, blocks + 1, bytes', a.firstfree, x);
        KeptMoved(rest.arena, step.moves, rest.moves, p, x, m);
      }
    } else {
      assert Holds(a, p, x);
    }
  }

  /** The move a step reports still points at the block it moved, header and
      payload, at the end of the gc call; that block was allocated before the
      step. */
  lemma StepMoveStays(a: Arena, s: Arena, blocks: nat, bytes: nat, m: Move)
    requires Check(a) && a.firstfree != a.openspace && s == Step(a).arena && Check(s)
    requires m in Step(a).moves
    ensures Lands(Collect(s, blocks, bytes).arena, m, Blocks(a))
  {
    StepMovesBlock(a);
    var x := BlockAt(a.e, NextBlock(a));
    assert m.ptr == a.firstfree + 1 && x.size == a.e[NextBlock(a)].size;
    assert Holds(s, a.firstfree, x) && a.firstfree + Cells(x.size) <= s.firstfree;
    StaysBelow(s, blocks, bytes, a.firstfree, x);
    LiveIsListed(a, NextBlock(a));
  }

  /** Every move a gc call reports is of a block that was allocated before
      the call: afterwards that block, header and payload, is at ptr - 1,
      with the tag reported. */
  lemma {:induction false} CollectMovesBlocks(a: Arena, blocks: nat, bytes: nat)
    requires Check(a)
    ensures Check(Collect(a, blocks, bytes).arena)
    ensures forall m :: m in Collect(a, blocks, bytes).moves ==>
              Lands(Collect(a, blocks, bytes).arena, m, Blocks(a))
    decreases MAX_BLOCKS - blocks
  {
    CollectKeepsCheck(a, blocks, bytes);
    if !(a.firstfree == a.openspace || blocks >= MAX_BLOCKS || bytes >= MAX_BYTES) {
      var step, rest := NextTurn(a, blocks, bytes);
      var bytes' := (bytes + step.moved) % 0x1_0000;
      StepKeepsBlocks(a);
      CollectMovesBlocks(step.arena, blocks + 1, bytes');
      forall m | m in step.moves + rest.moves
        ensures Lands(rest.arena, m, Blocks(a))
      {
        if m in step.moves {
          StepMoveStays(a, step.arena, blocks + 1, bytes', m);
        }
      }
    }
  }

  /** A gc call never adds blocks between firstfree and the open space, and
      removes at least one whenever there is garbage to collect and budget
      left. */
  lemma {:induction false} CollectProgress(a: Arena, blocks: nat, bytes: nat)
    requires Check(a)
    ensures Check(Collect(a, blocks, bytes).arena)
    ensures var b := Collect(a, blocks, bytes).arena;
            BlockCount(b.e, b.firstfree, b.openspace) <= BlockCount(a.e, a.firstfree, a.openspace)
    ensures var b := Collect(a, blocks, bytes).arena;
            a.firstfree != a.openspace && blocks < MAX_BLOCKS && bytes < MAX_BYTES ==>
              BlockCount(b.e, b.firstfree, b.openspace) < BlockCount(a.e, a.firstfree, a.openspace)
    decreases MAX_BLOCKS - blocks
  {
    if !(a.firstfree == a.openspace || blocks >= MAX_BLOCKS || bytes >= MAX_BYTES) {
      var step, rest := NextTurn(a, blocks, bytes);
      StepProgress(a);
      CollectProgress(step.arena, blocks + 1, (bytes + step.moved) % 0x1_0000);
    }
  }

  /** The arena after `calls` gc calls with no allocation or free between
      them. */
  ghost function CollectTimes(a: Arena, calls: nat): (b: Arena)
    requires Check(a)
    ensures Check(b)
    decreases calls
  {
    if calls == 0 then a
    else
      CollectKeepsCheck(a, 0, 0);
      CollectTimes(Collect(a, 0, 0).arena, calls - 1)
  }

  /** Repeated gc calls compact the arena: after at most as many calls as
      there are blocks between firstfree and the open space, firstfree has
      reached the open space, and then alloc no longer answers AGAIN. */
  lemma {:induction false} RepeatedCollectCompacts(a: Arena, calls: nat)
    requires Check(a) && calls >= BlockCount(a.e, a.firstfree, a.openspace)
    ensures CollectTimes(a, calls).firstfree == CollectTimes(a, calls).openspace
    ensures Blocks(CollectTimes(a, calls)) == Blocks(a)
    decreases calls
  {
    if a.firstfree == a.openspace {
      if calls > 0 {
        RepeatedCollectCompacts(a, calls - 1);
      }
    } else {
      StepShape(a);
      PendingFirst(a.e, a.firstfree, a.firstfree + Cells(a.e[a.firstfree].size), a.openspace);
      CollectKeepsBlocks(a, 0, 0);
      CollectProgress(a, 0, 0);
      RepeatedCollectCompacts(Collect(a, 0, 0).arena, calls - 1);
    }
  }

  // ---------------------------------------------------------------------
  // The allocator object

  class Allocator {
    /** The administrative fields of struct icgcb. */
    var size: nat
    var freespace: nat
    var firstfree: nat
    var openspace: nat
    var sentinel: nat
    /** The cells e[0..sentinel]. */
    const e: array<Hdr>

    /** The arena as a value. */
    ghost function View(): Arena
      reads this, e
    {
      Arena(size, freespace, firstfree, openspace, sentinel, e[..])
    }

    /** check(). */
    ghost predicate Valid()
      reads this, e
    {
      Check(View())
    }

    /** zhe_icgcb_init on a buffer of `bytes` bytes.  The payload cells
        hold whatever the buffer held; here they start as {0, 0}. */
    constructor Init(bytes: nat)
      requires SIZEOF_ICGCB <= bytes < AlignDown(URIPOS_INVALID) - UNIT
      ensures Valid() && IsInitial(View(), bytes)
      ensures Blocks(View()) == []
    {
      var fs := AlignDown(bytes - ADMIN - UNIT);
      freespace := fs;
      size := fs + ADMIN + UNIT;
      firstfree := 0;
      openspace := 0;
      sentinel := fs / UNIT;
      e := new Hdr[fs / UNIT + 1](_ => Hdr(0, 0));
      new;
      e[0] := Hdr(fs, URIPOS_INVALID);
      e[sentinel] := Hdr(0, URIPOS_INVALID);
      InitialIsEmpty(View(), bytes);
    }

    /** zhe_icgcb_alloc. */
    method Alloc(sz: nat, ref: nat) returns (res: AllocResult)
      requires Valid() && 0 < sz < size && ref < URIPOS_INVALID
      modifies this, e
      ensures Valid() && (res, View()) == Allocate(old(View()), sz, ref)
    {
      ghost var a := View();
      AllocateKeepsCheck(a, sz, ref);
      var sizeA := UNIT + AlignUp(sz);
      if freespace < sizeA {
        res := NoSpace;
      } else if e[openspace].size < sizeA {
        res := Again;
      } else {
        res := AllocOpenSpace(sz, ref);
      }
    }

    /** The successful branch of zhe_icgcb_alloc. */
    method AllocOpenSpace(sz: nat, ref: nat) returns (res: AllocResult)
      requires Valid() && 0 < sz < size && ref < URIPOS_INVALID
      requires UNIT + AlignUp(sz) <= freespace && UNIT + AlignUp(sz) <= e[openspace].size
      modifies this, e
      ensures View() == Carve(old(View()), sz, ref) && res == Ok(old(openspace) + 1)
    {
      ghost var a := View();
      var sizeA := UNIT + AlignUp(sz);
      CarveAsComputed(a, sz, ref, sizeA);
      var o := openspace;
      var firstfreeIsOpenspace := firstfree == openspace;
      if e[o].size - sizeA < UNIT {
        openspace := sentinel;
      } else {
        e[o + sizeA / UNIT] := Hdr(e[o].size - sizeA, URIPOS_INVALID);
        openspace := o + sizeA / UNIT;
      }
      if firstfreeIsOpenspace {
        firstfree := openspace;
      }
      freespace := freespace - sizeA;
      e[o] := Hdr(UNIT + sz, ref);
      res := Ok(o + 1);
    }

    /** zhe_icgcb_free on the payload pointer of an allocated block. */
    method Free(ptr: nat)
      requires Valid() && 1 <= ptr && IsLive(View(), ptr - 1)
      modifies this, e
      ensures Valid() && View() == Release(old(View()), ptr - 1)
    {
      ghost var a := View();
      ReleaseChecks(a, ptr - 1);
      var hdrpos := ptr - 1;
      e[hdrpos] := Hdr(AlignUp(e[hdrpos].size), URIPOS_INVALID);
      freespace := freespace + e[hdrpos].size;
      if hdrpos < firstfree {
        firstfree := hdrpos;
      }
    }

    /** zhe_icgcb_getsize on the payload pointer of an allocated block: the
        size that block was allocated with, as listed among the blocks. */
    method GetSize(ptr: nat) returns (r: nat)
      requires Valid() && 1 <= ptr && IsLive(View(), ptr - 1)
      ensures r + UNIT == e[ptr - 1].size
      ensures BlockAt(e[..], ptr - 1) in Blocks(View()) && BlockAt(e[..], ptr - 1).size == UNIT + r
    {
      LiveBlock(View(), ptr - 1);
      r := e[ptr - 1].size - UNIT;
    }

    /** memmove of n cells from src down to dst. */
    method MoveCells(dst: nat, src: nat, n: nat)
      requires dst <= src && src + n <= e.Length
      modifies e
      ensures e[..] == MoveDown(old(e[..]), dst, src, n)
    {
      ghost var s := e[..];
      forall k | dst <= k < dst + n {
        e[k] := e[k - dst + src];
      }
      MovedDown(s, dst, src, n);
    }

    /** One iteration of gc's loop body. */
    method CompactStep() returns (moves: seq<Move>, moved: nat)
      requires Valid() && firstfree != openspace
      modifies this, e
      ensures Valid() && Turn(View(), moves, moved) == Step(old(View()))
    {
      ghost var a := View();
      StepShape(a);
      StepChecks(a);
      var ne := firstfree + e[firstfree].size / UNIT;
      if e[ne].ref != URIPOS_INVALID {
        moves, moved := Relocation();
      } else {
        Merging();
        moves, moved := [], 0;
      }
    }

    /** gc, when the block after the firstfree block is allocated: move it
        down to firstfree, put a free block of the old gap's size after it,
        and report it. */
    method Relocation() returns (moves: seq<Move>, moved: nat)
      requires Valid() && firstfree != openspace && NextIsAllocated(View())
      modifies this, e
      ensures View() == Relocate(old(View()))
      ensures moves == [Move(old(View()).e[NextBlock(old(View()))].ref, old(firstfree) + 1)]
      ensures moved == old(View()).e[NextBlock(old(View()))].size
    {
      ghost var a := View();
      StepShape(a);
      var ff := firstfree;
      var ne := ff + e[ff].size / UNIT;
      var esize := e[ff].size;
      var nsize := e[ne].size;
      var c := AlignUp(nsize) / UNIT;
      RelocateAsComputed(a, ne, c);
      MoveCells(ff, ne, c);
      MovedDown(a.e, ff, ne, c);
      e[ff + c] := Hdr(esize, URIPOS_INVALID);
      firstfree := ff + c;
      assert e[ff] == a.e[ne];
      moves, moved := [Move(e[ff].ref, ff + 1)], nsize;
    }

    /** gc, when the block after the firstfree block is free: absorb it,
        and move the open space back to firstfree if it was the open space
        block. */
    method Merging()
      requires Valid() && firstfree != openspace && !NextIsAllocated(View())
      modifies this, e
      ensures View() == Merge(old(View()))
    {
      ghost var a := View();
      StepShape(a);
      var ne := firstfree + e[firstfree].size / UNIT;
      e[firstfree] := Hdr(e[firstfree].size + e[ne].size, URIPOS_INVALID);
      if ne == openspace {
        openspace := firstfree;
      }
    }

    /** One turn of gc's loop, stated against Collect: the run from here
        is this turn's moves followed by the run from the next state. */
    method GcTurn(blocks: nat, bytes: nat) returns (moves: seq<Move>, moved: nat, ghost rest: Run)
      requires Valid() && firstfree != openspace && blocks < MAX_BLOCKS && bytes < MAX_BYTES
      modifies this, e
      ensures Valid() && rest == Collect(View(), blocks + 1, (bytes + moved) % 0x1_0000)
      ensures Collect(old(View()), blocks, bytes) == Run(rest.arena, moves + rest.moves)
    {
      ghost var a := View();
      ghost var step;
      step, rest := NextTurn(a, blocks, bytes);
      moves, moved := CompactStep();
    }

    /** zhe_icgcb_gc: steps while there is garbage, at most MAX_BLOCKS
        times, and while fewer than MAX_BYTES bytes have been moved; the
        calls of move_cb are returned in order. */
    method Gc() returns (moves: seq<Move>)
      requires Valid()
      modifies this, e
      ensures Valid() && Run(View(), moves) == Collect(old(View()), 0, 0)
    {
      var blocks: nat, bytes: nat := 0, 0;
      moves := [];
      ghost var rest := Collect(View(), 0, 0);
      ghost var run := rest;
      Regroup([], [], rest.moves);
      while firstfree != openspace && blocks < MAX_BLOCKS && bytes < MAX_BYTES
        invariant Valid() && blocks <= MAX_BLOCKS && bytes < 0x1_0000
        invariant rest == Collect(View(), blocks, bytes)
        invariant run == Run(rest.arena, moves + rest.moves)
        decreases MAX_BLOCKS - blocks
      {
        ghost var before := moves;
        ghost var done := rest;
        var step, moved;
        step, moved, rest := GcTurn(blocks, bytes);
        blocks := blocks + 1;
        bytes := (bytes + moved) % 0x1_0000;
        moves := moves + step;
        Regroup(before, step, rest.moves);
      }
      Regroup(moves, [], []);
    }
  }
}
