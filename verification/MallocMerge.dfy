/**
 * merge_blocks, f_compact and blk_rearrange on the headers in memory. They go
 * by the prev pointers, which split_block does not keep up to date.
 */
module MallocMerge {
  import opened MallocHeap
  import opened MallocRuns
  import opened MallocLinks

  /** A header read from memory; where none was written its content is of no interest. */
  function At(m: Memory, a: int): Block {
    if a in m then m[a] else Block(0, NULL, NULL, 0, 0)
  }

  /** merge_blocks for first < second */
  function MergeMem(m: Memory, a: int, d: int): Memory {
    var next := At(m, d).next;
    var n := m[a := At(m, a).(size := Wrap(Wrap(At(m, a).size + HEADER) + At(m, d).size), next := next)];
    if next != NULL then n[next := At(n, next).(prev := a)] else n
  }

  /** The two merges of blk_rearrange: memory, and the block that has absorbed the others. */
  function MergeBackMem(m: Memory, blk: int): (Memory, int) {
    var prev := At(m, blk).prev;
    if prev != NULL && !At(m, prev).InUse() then
      var a, d := if prev < blk then prev else blk, if prev < blk then blk else prev;
      (MergeMem(m, a, d), a)
    else (m, blk)
  }

  function MergeForwardMem(m: Memory, blk: int): (Memory, int) {
    var next := At(m, blk).next;
    if next != NULL && !At(m, next).InUse() then
      var a, d := if blk < next then blk else next, if blk < next then next else blk;
      (MergeMem(m, a, d), a)
    else (m, blk)
  }

  /** f_compact for a kernel block: memory and heap_end_kernel. */
  function CompactMem(m: Memory, end: u32, blk: int): (Memory, u32) {
    var prev := At(m, blk).prev;
    if prev == NULL then (m, end)
    else (m[prev := At(m, prev).(next := NULL)], Wrap(end - Wrap(At(m, blk).size + HEADER)))
  }

  /** blk_rearrange */
  function RearrangeMem(m: Memory, end: u32, blk: int): (Memory, u32) {
    var (m1, b1) := MergeBackMem(m, blk);
    var (m2, b2) := MergeForwardMem(m1, b1);
    if At(m2, b2).next == NULL then CompactMem(m2, end, b2) else (m2, end)
  }

  /** The list after block i has absorbed its successor. */
  ghost function Without(chain: seq<int>, i: nat): seq<int>
    requires i < |chain|
  {
    chain[..i] + chain[i + 1..]
  }

  ghost predicate Good(m: Memory, chain: seq<int>, from: int, to: int) {
    Linked(m, chain) && PrevInverts(m, chain) && Tiling(from, Cells(m, chain), to) && 0 < from
  }

  /** What merging writes, position by position. */
  lemma MergeWrites(m: Memory, chain: seq<int>, from: int, to: int, i: nat, j: nat)
    requires Good(m, chain, from, to) && i + 1 < |chain| && j < |chain| && j != i + 1
    ensures var n := MergeMem(m, chain[i], chain[i + 1]); var x := m[chain[j]];
      chain[j] in n && n[chain[j]] ==
        if j == i then x.(size := Wrap(Wrap(x.size + HEADER) + m[chain[i + 1]].size), next := Next(chain, i + 2))
        else if j == i + 2 then x.(prev := chain[i])
        else x
  {
    Ordered(m, chain, from, to, i);
    Ordered(m, chain, from, to, i + 1);
    Ordered(m, chain, from, to, j);
    assert m[chain[i + 1]].next == Next(chain, i + 2);
    if i + 2 < |chain| { Ordered(m, chain, from, to, i + 2); }
  }

  lemma MergeLinks(m: Memory, chain: seq<int>, from: int, to: int, i: nat)
    requires Good(m, chain, from, to) && i + 1 < |chain| && to - from < HALF
    requires !m[chain[i]].InUse() && !m[chain[i + 1]].InUse()
    ensures chain[i] < chain[i + 1]
    ensures var n := MergeMem(m, chain[i], chain[i + 1]); var c := Without(chain, i + 1);
      Good(n, c, from, to) && Cells(n, c) == MergeAt(Cells(m, chain), i)
  {
    var n, c := MergeMem(m, chain[i], chain[i + 1]), Without(chain, i + 1);
    Ordered(m, chain, from, to, i);
    forall k | 0 <= k < |c|
      ensures c[k] in n && n[c[k]].magic == MAGIC && n[c[k]].next == Next(c, k + 1)
      ensures n[c[k]].prev == if k == 0 then NULL else c[k - 1]
      ensures CellAt(n, c[k]) == MergeAt(Cells(m, chain), i)[k]
    {
      MergedAt(m, chain, from, to, i, k);
    }
    assert NULL !in n by { if Next(chain, i + 2) != NULL { assert chain[i + 2] in m; } }
    assert Linked(n, c);
    assert Cells(n, c) == MergeAt(Cells(m, chain), i);
    MergeKeeps(from, Cells(m, chain), to, i);
  }

  lemma MergedAt(m: Memory, chain: seq<int>, from: int, to: int, i: nat, k: nat)
    requires Good(m, chain, from, to) && i + 1 < |chain| && k < |chain| - 1
    ensures var n := MergeMem(m, chain[i], chain[i + 1]); var c := Without(chain, i + 1);
      && c[k] in n && n[c[k]].magic == MAGIC && n[c[k]].next == Next(c, k + 1)
      && n[c[k]].prev == (if k == 0 then NULL else c[k - 1])
      && CellAt(n, c[k]) == MergeAt(Cells(m, chain), i)[k]
  {
    var c := Without(chain, i + 1);
    var j := if k <= i then k else k + 1;
    assert c[k] == chain[j];
    MergeWrites(m, chain, from, to, i, j);
    assert m[chain[j]].next == Next(chain, j + 1);
    assert m[chain[j]].prev == if j == 0 then NULL else chain[j - 1];
    assert Next(c, k + 1) == if k < i then Next(chain, k + 1) else Next(chain, k + 2);
    assert MergeAt(Cells(m, chain), i)[k] == if k == i then MergeAt(Cells(m, chain), i)[i] else Cells(m, chain)[j];
  }

  lemma CompactLinks(m: Memory, chain: seq<int>, h: Heap, base: int, i: nat)
    requires Good(m, chain, base, h.end) && h.cells == Cells(m, chain) && Inv(h, base)
    requires i == |chain| - 1 && !m[chain[i]].InUse()
    ensures var (n, end) := CompactMem(m, h.end, chain[i]); var c := if i == 0 then chain else chain[..i];
      Good(n, c, base, end) && Cells(n, c) == Compact(h, i).cells && end == Compact(h, i).end
  {
    var (n, end) := CompactMem(m, h.end, chain[i]);
    assert m[chain[i]].prev == if i == 0 then NULL else chain[i - 1];
    if i > 0 {
      var c := chain[..i];
      Ordered(m, chain, base, h.end, i - 1);
      assert chain[i - 1] in m;
      forall k | 0 <= k < |c|
        ensures c[k] in n && n[c[k]].magic == MAGIC && n[c[k]].next == Next(c, k + 1)
        ensures n[c[k]].prev == if k == 0 then NULL else c[k - 1]
        ensures CellAt(n, c[k]) == h.cells[k]
      {
        assert m[chain[k]].next == Next(chain, k + 1);
        assert m[chain[k]].prev == if k == 0 then NULL else chain[k - 1];
        assert h.cells[k] == CellAt(m, chain[k]);
        if k < i - 1 { Ordered(m, chain, base, h.end, k); }
      }
      assert Linked(n, c);
      assert Cells(n, c) == h.cells[..i];
      CompactKeeps(h, base, i);
    }
  }

  /** The addresses that remain in the list after blk_rearrange. */
  ghost function RearrangeChain(chain: seq<int>, cells: seq<Cell>, i: nat): seq<int>
    requires i < |chain| == |cells|
  {
    var (back, j) := MergeBack(cells, i);
    var c1 := if j < i then Without(chain, i) else chain;
    var c2 := if j + 1 < |back| && !back[j + 1].used then Without(c1, j + 1) else c1;
    if j == |c2| - 1 && j > 0 then c2[..j] else c2
  }

  /**
   * With prev pointers that undo the next pointers, blk_rearrange does to
   * memory what Rearrange does to the list, and leaves such pointers again.
   */
  lemma RearrangeLinks(m: Memory, chain: seq<int>, h: Heap, base: int, i: nat)
    requires Good(m, chain, base, h.end) && h.cells == Cells(m, chain) && Inv(h, base)
    requires i < |chain| && !m[chain[i]].InUse()
    ensures var (n, end) := RearrangeMem(m, h.end, chain[i]); var c := RearrangeChain(chain, h.cells, i);
      Good(n, c, base, end) && Cells(n, c) == Rearrange(h, i).cells && end == Rearrange(h, i).end
  {
    hide MergeBack, MergeForward, Compact, MergeBackMem, MergeForwardMem, CompactMem, Without;
    var (back, j) := MergeBack(h.cells, i);
    var c1 := if j < i then Without(chain, i) else chain;
    var (m1, b1) := MergeBackMem(m, chain[i]);
    BackLinks(m, chain, h, base, i);
    var h1 := h.(cells := back);
    ForwardLinks(m1, c1, h1, base, j);
    var (m2, b2) := MergeForwardMem(m1, b1);
    var c2 := if j + 1 < |back| && !back[j + 1].used then Without(c1, j + 1) else c1;
    var h2 := h.(cells := MergeForward(back, j));
    assert b2 == c2[j] && m2[c2[j]].next == Next(c2, j + 1);
    CompactIfLast(m2, c2, h2, base, j);
  }

  lemma CompactIfLast(m: Memory, chain: seq<int>, h: Heap, base: int, j: nat)
    requires Good(m, chain, base, h.end) && h.cells == Cells(m, chain) && Inv(h, base)
    requires j < |chain| && !m[chain[j]].InUse() && m[chain[j]].next == Next(chain, j + 1)
    ensures var (n, end) := if m[chain[j]].next == NULL then CompactMem(m, h.end, chain[j]) else (m, h.end);
      var c := if j == |chain| - 1 && j > 0 then chain[..j] else chain;
      Good(n, c, base, end) && Cells(n, c) == Compact(h, j).cells && end == Compact(h, j).end
  {
    if j == |chain| - 1 {
      CompactLinks(m, chain, h, base, j);
    } else {
      assert chain[j + 1] in m;
    }
  }

  lemma BackLinks(m: Memory, chain: seq<int>, h: Heap, base: int, i: nat)
    requires Good(m, chain, base, h.end) && h.cells == Cells(m, chain) && Inv(h, base)
    requires i < |chain| && !m[chain[i]].InUse()
    ensures var (n, b) := MergeBackMem(m, chain[i]); var (back, j) := MergeBack(h.cells, i);
      var c := if j < i then Without(chain, i) else chain;
      && Good(n, c, base, h.end) && Cells(n, c) == back && b == c[j] && !n[b].InUse()
      && Inv(h.(cells := back), base)
  {
    assert m[chain[i]].prev == if i == 0 then NULL else chain[i - 1];
    TilingBounds(base, h.cells, h.end);
    if i > 0 {
      assert h.cells[i - 1] == CellAt(m, chain[i - 1]);
      if !h.cells[i - 1].used {
        MergeLinks(m, chain, base, h.end, i - 1);
        MergeKeeps(base, h.cells, h.end, i - 1);
        MergedAt(m, chain, base, h.end, i - 1, i - 1);
      }
    }
  }

  lemma ForwardLinks(m: Memory, chain: seq<int>, h: Heap, base: int, i: nat)
    requires Good(m, chain, base, h.end) && h.cells == Cells(m, chain) && Inv(h, base)
    requires i < |chain| && !m[chain[i]].InUse()
    ensures var (n, b) := MergeForwardMem(m, chain[i]); var r := MergeForward(h.cells, i);
      var c := if i + 1 < |chain| && !h.cells[i + 1].used then Without(chain, i + 1) else chain;
      && Good(n, c, base, h.end) && Cells(n, c) == r && b == c[i] && !n[b].InUse()
      && Inv(h.(cells := r), base)
  {
    assert m[chain[i]].next == Next(chain, i + 1);
    TilingBounds(base, h.cells, h.end);
    if i + 1 < |chain| {
      assert h.cells[i + 1] == CellAt(m, chain[i + 1]);
      if !h.cells[i + 1].used {
        MergeLinks(m, chain, base, h.end, i);
        MergeKeeps(base, h.cells, h.end, i);
        MergedAt(m, chain, base, h.end, i, i);
      }
    }
  }

  /**
   * With a prev pointer left over from a split, merging back skips the blocks
   * in between: the merged header ends before the block its next points to.
   */
  lemma StalePrevLoses(m: Memory, chain: seq<int>, from: int, to: int, k: nat, i: nat)
    requires Linked(m, chain) && Tiling(from, Cells(m, chain), to) && 0 < from && to - from < HALF
    requires k + 1 < i < |chain| && m[chain[i]].prev == chain[k] && !m[chain[k]].InUse()
    ensures var (n, b) := MergeBackMem(m, chain[i]);
      && b == chain[k] && At(n, b).next == Next(chain, i + 1)
      && b + HEADER + At(n, b).size < chain[i] + HEADER + m[chain[i]].size
  {
    Ordered(m, chain, from, to, k);
    Ordered(m, chain, from, to, k + 1);
    Ordered(m, chain, from, to, i);
    assert m[chain[i]].next == Next(chain, i + 1);
    if i + 1 < |chain| { Ordered(m, chain, from, to, i + 1); }
  }
}
