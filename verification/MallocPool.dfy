/**
 * The kernel pool as the code holds it, operation by operation. Every method
 * is proved against the list of blocks.
 */
module MallocPool {
  import opened Machine
  import opened MallocHeap
  import opened MallocLinks
  import opened MallocRuns
  import opened MallocMerge

  class Pool {
    const base: int
    const lim: Limits
    /** Memory, at the places where headers have been written. */
    var blocks: map<int, Block>
    var entry: int
    var heapEnd: u32
    var objects: u32
    var bytes: u32
    /** Addresses in the order of the next pointers. */
    ghost var chain: seq<int>

    constructor (base: int, lim: Limits)
      requires 0 < base < HALF && Word(base) && lim.limit <= HALF
      ensures Valid() && View() == Heap([], base, 0, 0) && PrevInverts(blocks, chain)
    {
      this.base, this.lim := base, lim;
      blocks, entry, heapEnd, objects, bytes, chain := map[], NULL, base, 0, 0, [];
    }

    ghost function View(): Heap
      requires Linked(blocks, chain)
      reads this
    {
      Heap(Cells(blocks, chain), heapEnd, objects, bytes)
    }

    ghost predicate Valid()
      reads this
    {
      lim.limit <= HALF && entry == Next(chain, 0) && Linked(blocks, chain) && Inv(View(), base)
    }

    /** The rounding loop at the head of f_malloc. */
    method RoundSize(size: u32) returns (n: u32)
      ensures n == RoundUp(size)
    {
      n := size;
      while n % 4 != 0
        invariant RoundUp(n) == RoundUp(size)
        decreases if n == 0 then 0 else WORD - n
      {
        n := if n + 1 == WORD then 0 else n + 1;
      }
    }

    method FindBestFit(n: u32) returns (found: int, last: int, ghost b: int)
      requires Linked(blocks, chain) && entry == Next(chain, 0)
      ensures b == Best(Cells(blocks, chain), n, |chain|)
      ensures found == if b < 0 then NULL else chain[b]
      ensures last == if chain == [] then NULL else chain[|chain| - 1]
    {
      var blk := entry;
      found, last, b := NULL, NULL, -1;
      ghost var i, cells := 0, Cells(blocks, chain);
      while blk != NULL
        invariant 0 <= i <= |chain| && blk == Next(chain, i)
        invariant b == Best(cells, n, i) && found == if b < 0 then NULL else chain[b]
        invariant last == if i == 0 then NULL else chain[i - 1]
        decreases |chain| - i
      {
        last := blk;
        if blocks[blk].magic == MAGIC && !blocks[blk].InUse() && n <= blocks[blk].size {
          if found == NULL || blocks[blk].size < blocks[found].size {
            found, b := blk, i;
          }
        }
        if blocks[blk].next != NULL && (blocks[blk].next !in blocks || blocks[blocks[blk].next].magic != MAGIC) {
          // an invalid successor would be cut off here
          assert false;
        }
        blk := blocks[blk].next;
        i := i + 1;
      }
    }

    /** split_block on block b of the chain; NULL when the rest would be too small. */
    method SplitBlock(blk: int, n: u32, ghost b: nat) returns (freeBlk: int)
      requires Linked(blocks, chain) && Tiling(base, Cells(blocks, chain), heapEnd) && base > 0
      requires b < |chain| && chain[b] == blk && n <= blocks[blk].size && HEADER <= blocks[blk].size
      modifies `blocks, `chain
      ensures Linked(blocks, chain)
      ensures freeBlk == NULL <==> Wrap(old(blocks[blk].size) - HEADER) <= n
      ensures freeBlk == NULL ==> blocks == old(blocks) && chain == old(chain)
      ensures freeBlk != NULL ==> |chain| == |old(chain)| + 1 && chain[b] == blk && Next(chain, 0) == old(Next(chain, 0))
      ensures freeBlk != NULL ==> Cells(blocks, chain) == Replace(old(Cells(blocks, chain)), b,
        [Cell(blk, n, old(blocks[blk].InUse())), Cell(blk + HEADER + n, Wrap(old(blocks[blk].size) - HEADER - n), false)])
      ensures freeBlk != NULL && old(PrevInverts(blocks, chain)) ==>
        (PrevInverts(blocks, chain) <==> b == |old(chain)| - 1)
    {
      var size := blocks[blk].size;
      if Wrap(size - HEADER) <= n {
        return NULL;
      }
      Ordered(blocks, chain, base, heapEnd, b);
      freeBlk := blk + HEADER + n;
      var rest := Block(MAGIC, blk, blocks[blk].next, Wrap(size - HEADER - n), 0);
      SplitLinks(blocks, chain, base, heapEnd, b, blocks[blk].(size := n, next := freeBlk), freeBlk, rest);
      blocks := blocks[blk := blocks[blk].(size := n, next := freeBlk)];
      blocks := blocks[freeBlk := rest];
      chain := chain[..b + 1] + [freeBlk] + chain[b + 1..];
    }

    /** blk->flags = F_IN_USE | MEM_KERNEL */
    method MarkInUse(blk: int, ghost b: nat)
      requires Linked(blocks, chain) && Tiling(base, Cells(blocks, chain), heapEnd)
      requires b < |chain| && chain[b] == blk
      modifies `blocks
      ensures Linked(blocks, chain)
      ensures Cells(blocks, chain) == old(Cells(blocks, chain))[b := Cell(blk, old(blocks[blk].size), true)]
      ensures old(PrevInverts(blocks, chain)) <==> PrevInverts(blocks, chain)
      ensures blk in blocks && blocks[blk].size == old(blocks[blk].size)
    {
      UpdateLinks(blocks, chain, base, heapEnd, b, blocks[blk].(flags := IN_USE));
      blocks := blocks[blk := blocks[blk].(flags := IN_USE)];
    }

    /** The branch of f_malloc that reuses a free block. */
    method TakeFree(blk: int, n: u32, ghost b: nat)
      requires Valid() && Word(n) && b < |chain| && chain[b] == blk && Fits(Cells(blocks, chain)[b], n)
      modifies `blocks, `chain
      ensures Linked(blocks, chain) && entry == Next(chain, 0) && blk in blocks
      ensures var c := old(Cells(blocks, chain));
        && Cells(blocks, chain) == Replace(c, b, Cut(c[b], n))
        && blocks[blk].size == Cut(c[b], n)[0].size
      ensures old(PrevInverts(blocks, chain)) ==>
        (PrevInverts(blocks, chain) <==> |chain| == |old(chain)| || b == |old(chain)| - 1)
    {
      hide PrevInverts;
      ghost var cells := Cells(blocks, chain);
      TilingBounds(base, cells, heapEnd);
      TilingWords(base, cells, heapEnd);
      if Wrap(2 * Wrap(n + HEADER)) < blocks[blk].size {
        ghost var c := cells[b];
        var rest := SplitBlock(blk, n, b);
        if rest != NULL {
          CutTiles(c, n);
          ReplaceKeeps(base, cells, heapEnd, b, [Cell(blk, n, false), Cut(c, n)[1]]);
          assert Cells(blocks, chain)[b] == CellAt(blocks, blk);
          ReplaceFront(cells, b, Cell(blk, n, false), Cut(c, n)[1], Cell(blk, n, true));
          MarkInUse(blk, b);
          return;
        }
      }
      ReplaceOne(cells, b, Cell(blk, blocks[blk].size, true));
      MarkInUse(blk, b);
    }

    /** f_sbrk for the kernel pool: the old end, or -1. */
    method Sbrk(incr: int) returns (prev: int)
      requires -HALF <= incr < HALF
      modifies `heapEnd
      ensures var end := Wrap(old(heapEnd) + incr);
        if end >= lim.limit || end > lim.stack
        then prev == -1 && heapEnd == old(heapEnd)
        else prev == old(heapEnd) && heapEnd == end
    {
      if Wrap(heapEnd + incr) >= lim.limit || Wrap(heapEnd + incr) > lim.stack {
        return -1;
      }
      prev := heapEnd;
      heapEnd := Wrap(heapEnd + incr);
    }

    /** The branch of f_malloc that asks f_sbrk; -1 when there is no room. */
    method TakeNew(n: u32, last: int) returns (blk: int)
      requires Valid() && last == if chain == [] then NULL else chain[|chain| - 1]
      modifies `blocks, `chain, `heapEnd, `entry
      ensures Linked(blocks, chain) && entry == Next(chain, 0)
      ensures var end := NewEnd(old(heapEnd), n);
        if end >= lim.limit || end > lim.stack then
          blk == -1 && blocks == old(blocks) && chain == old(chain) && heapEnd == old(heapEnd)
        else
          && blk == old(heapEnd) && heapEnd == end && blk in blocks && blocks[blk].size == n
          && Cells(blocks, chain) == old(Cells(blocks, chain)) + [Cell(blk, n, true)]
          && (old(PrevInverts(blocks, chain)) ==> PrevInverts(blocks, chain))
    {
      ghost var end := heapEnd;
      TilingBounds(base, Cells(blocks, chain), heapEnd);
      blk := Sbrk(Int32(Wrap(n + HEADER)));
      if blk == -1 {
        return;
      }
      if entry == NULL {
        entry := blk;
      }
      GrowLinks(blocks, chain, base, end, Block(MAGIC, last, NULL, n, IN_USE));
      blocks := blocks[blk := Block(MAGIC, last, NULL, n, IN_USE)];
      if last != NULL {
        blocks := blocks[last := blocks[last].(next := blk)];
      }
      chain := chain + [blk];
    }

    /** Metadata and statistics of a block that is handed out. */
    method Count(blk: int)
      requires blk in blocks
      modifies `objects, `bytes
      ensures objects == Wrap(old(objects) + 1)
      ensures bytes == Wrap(old(bytes) + Wrap(blocks[blk].size + HEADER))
    {
      objects := Wrap(objects + 1);
      bytes := Wrap(bytes + Wrap(blocks[blk].size + HEADER));
    }

    method ReuseBlock(blk: int, n: u32, ghost b: nat) returns (ptr: int)
      requires Valid() && Word(n) && b < |chain| && chain[b] == blk && Fits(Cells(blocks, chain)[b], n)
      modifies this
      ensures Linked(blocks, chain) && entry == Next(chain, 0)
      ensures (View(), ptr) == Reuse(old(View()), n, b)
      ensures old(PrevInverts(blocks, chain)) ==>
        (PrevInverts(blocks, chain) <==> !Splits(old(View()).cells[b].size, n) || b == |old(chain)| - 1)
    {
      TakeFree(blk, n, b);
      Count(blk);
      ptr := blk + HEADER;
    }

    method GrowPool(n: u32, last: int) returns (ptr: int)
      requires Valid() && last == if chain == [] then NULL else chain[|chain| - 1]
      modifies this
      ensures Linked(blocks, chain) && entry == Next(chain, 0)
      ensures (View(), ptr) == Grow(old(View()), n, lim)
      ensures old(PrevInverts(blocks, chain)) ==> PrevInverts(blocks, chain)
    {
      TilingBounds(base, Cells(blocks, chain), heapEnd);
      var blk := TakeNew(n, last);
      if blk == -1 {
        return NULL;
      }
      Count(blk);
      ptr := blk + HEADER;
    }

    /** f_malloc(MEM_KERNEL, size) */
    method Malloc(size: u32) returns (ptr: int)
      requires Valid()
      modifies this
      ensures Linked(blocks, chain) && entry == Next(chain, 0)
      ensures (View(), ptr) == MallocHeap.Malloc(old(View()), size, lim)
      ensures var c := old(View()).cells; var n := RoundUp(size); var b := Best(c, n, |c|);
        && (Valid() <==> ptr == NULL || b >= 0 || n + HEADER < HALF)
        && (old(PrevInverts(blocks, chain)) ==>
            (PrevInverts(blocks, chain) <==> b < 0 || !Splits(c[b].size, n) || b == |c| - 1))
    {
      MallocKeepsInv(View(), size, lim, base);
      var n := RoundSize(size);
      var blk, last, b := FindBestFit(n);
      if blk != NULL {
        ptr := ReuseBlock(blk, n, b);
      } else {
        ptr := GrowPool(n, last);
      }
    }

    /** A header that was once linked in and has been merged into another block, but still has the magic number. */
    ghost predicate Stale(blk: int)
      reads this
    {
      blk in blocks && blk !in chain && blocks[blk].magic == MAGIC
    }

    /**
     * f_free. A second free is only reported; the counters go down all the same, and so
     * they do for a stale header.
     */
    method Free(ptr: int)
      requires Valid()
      modifies this
      ensures Linked(blocks, chain) && entry == Next(chain, 0) && chain == old(chain)
      ensures View() ==
        if ptr == NULL || !old(Stale(ptr - HEADER)) then MallocHeap.Free(old(View()), ptr)
        else
          var h, size := old(View()), old(blocks[ptr - HEADER].size);
          h.(objects := Wrap(h.objects - 1), bytes := Wrap(h.bytes - Wrap(size + HEADER)))
      ensures old(PrevInverts(blocks, chain)) <==> PrevInverts(blocks, chain)
    {
      if ptr == NULL { return; }
      var blk := ptr - HEADER;
      if blk in blocks && blocks[blk].magic == MAGIC {
        GiveBack(blk);
      } else {
        assert Find(Cells(blocks, chain), blk) == |chain|;
      }
    }

    /** The branch of f_free for a valid header. */
    method GiveBack(blk: int)
      requires Valid() && blk in blocks && blocks[blk].magic == MAGIC
      modifies `blocks, `objects, `bytes
      ensures Linked(blocks, chain) && heapEnd == old(heapEnd)
      ensures View() ==
        if !old(Stale(blk)) then MallocHeap.Free(old(View()), blk + HEADER)
        else
          var h, size := old(View()), old(blocks[blk].size);
          h.(objects := Wrap(h.objects - 1), bytes := Wrap(h.bytes - Wrap(size + HEADER)))
      ensures old(PrevInverts(blocks, chain)) <==> PrevInverts(blocks, chain)
    {
      hide PrevInverts, Inv, Linked, MallocHeap.Free;
      var size := blocks[blk].size;
      var x := blocks[blk].(flags := blocks[blk].flags & !IN_USE);
      Cleared(blocks[blk].flags);
      GivesBack(blocks, chain, View(), base, blk, x);
      blocks := blocks[blk := x];
      objects := Wrap(objects - 1);
      bytes := Wrap(bytes - Wrap(size + HEADER));
    }

    /** blk_rearrange on a block that is no longer in use. */
    method BlkRearrange(blk: int, ghost i: nat)
      requires Valid() && PrevInverts(blocks, chain)
      requires i < |chain| && chain[i] == blk && !blocks[blk].InUse()
      modifies `blocks, `chain, `heapEnd
      ensures Valid() && PrevInverts(blocks, chain)
      ensures View() == Rearrange(old(View()), i)
    {
      RearrangeInv(View(), base, i);
      RearrangeLinks(blocks, chain, View(), base, i);
      ghost var c := RearrangeChain(chain, View().cells, i);
      var b := blk;
      blocks, b := MergeBackMem(blocks, b).0, MergeBackMem(blocks, b).1;
      blocks, b := MergeForwardMem(blocks, b).0, MergeForwardMem(blocks, b).1;
      if At(blocks, b).next == NULL {
        blocks, heapEnd := CompactMem(blocks, heapEnd, b).0, CompactMem(blocks, heapEnd, b).1;
      }
      chain := c;
    }
  }

  lemma FreeLinks(m: Memory, chain: seq<int>, h: Heap, base: int, blk: int, x: Block)
    requires Linked(m, chain) && h.cells == Cells(m, chain) && Inv(h, base) && blk in chain
    requires x == m[blk].(flags := x.flags) && !x.InUse()
    ensures blk > 0
    ensures var n, r := m[blk := x], MallocHeap.Free(h, blk + HEADER);
      && Linked(n, chain) && (PrevInverts(m, chain) <==> PrevInverts(n, chain))
      && r == Heap(Cells(n, chain), h.end, Wrap(h.objects - 1), Wrap(h.bytes - Wrap(m[blk].size + HEADER)))
  {
    hide UsedCount, UsedBytes;
    var b :| 0 <= b < |chain| && chain[b] == blk;
    FindAt(base, h.cells, h.end, b);
    TilingBounds(base, h.cells, h.end);
    assert h.cells[b] == CellAt(m, blk);
    UpdateLinks(m, chain, base, h.end, b, x);
  }

  lemma GivesBack(m: Memory, chain: seq<int>, h: Heap, base: int, blk: int, x: Block)
    requires Linked(m, chain) && h.cells == Cells(m, chain) && Inv(h, base) && blk in m
    requires x == m[blk].(flags := x.flags) && !x.InUse() && m[blk].magic == MAGIC
    ensures var n := m[blk := x];
      && Linked(n, chain) && (PrevInverts(m, chain) <==> PrevInverts(n, chain))
      && Heap(Cells(n, chain), h.end, Wrap(h.objects - 1), Wrap(h.bytes - Wrap(m[blk].size + HEADER)))
        == if blk in chain then MallocHeap.Free(h, blk + HEADER)
           else h.(objects := Wrap(h.objects - 1), bytes := Wrap(h.bytes - Wrap(m[blk].size + HEADER)))
  {
    hide PrevInverts, Inv, Linked, MallocHeap.Free;
    if blk in chain {
      FreeLinks(m, chain, h, base, blk, x);
    } else {
      ElsewhereLinks(m, chain, blk, x);
    }
  }

  lemma Cleared(f: bv32)
    ensures (f & !IN_USE) & IN_USE != IN_USE
  {
  }
}
