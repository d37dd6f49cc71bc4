/** Whole runs of f_malloc and f_free, and the merging done by blk_rearrange. */
module MallocRuns {
  import opened MallocHeap

  datatype Call = Alloc(size: u32) | Release(ptr: int)

  function Step(h: Heap, c: Call, lim: Limits): Heap {
    match c
    case Alloc(size) => Malloc(h, size, lim).0
    case Release(ptr) => Free(h, ptr)
  }

  function Run(h: Heap, calls: seq<Call>, lim: Limits): Heap
    decreases |calls|
  {
    if calls == [] then h else Run(Step(h, calls[0], lim), calls[1..], lim)
  }

  /** What callers must respect: no request that wraps, no pointer that is not in use. */
  ghost predicate Proper(h: Heap, c: Call, lim: Limits) {
    match c
    case Alloc(size) =>
      var n := RoundUp(size);
      Malloc(h, size, lim).1 == 0 || Best(h.cells, n, |h.cells|) >= 0 || n + HEADER < HALF
    case Release(ptr) => ptr == 0 || exists d :: d in Used(h.cells) && d.addr + HEADER == ptr
  }

  ghost predicate ProperRun(h: Heap, calls: seq<Call>, lim: Limits)
    decreases |calls|
  {
    calls == [] || (Proper(h, calls[0], lim) && ProperRun(Step(h, calls[0], lim), calls[1..], lim))
  }

  /** Blocks handed out and not yet given back, told from the results of the calls alone. */
  ghost function Outstanding(owned: set<Cell>, h: Heap, calls: seq<Call>, lim: Limits): set<Cell>
    decreases |calls|
  {
    if calls == [] then owned
    else Outstanding(After(owned, h, calls[0], lim), Step(h, calls[0], lim), calls[1..], lim)
  }

  ghost function After(owned: set<Cell>, h: Heap, c: Call, lim: Limits): set<Cell> {
    match c
    case Alloc(size) => if Malloc(h, size, lim).1 == 0 then owned else owned + {Chosen(h, size)}
    case Release(ptr) => set d | d in owned && (ptr == 0 || d.addr + HEADER != ptr)
  }

  lemma UsedAddresses(h: Heap, base: int, c: Cell, d: Cell)
    requires Inv(h, base) && c in Used(h.cells) && d in Used(h.cells) && c != d
    ensures c.End() <= d.addr || d.End() <= c.addr
  {
    var i :| 0 <= i < |h.cells| && h.cells[i] == c;
    var j :| 0 <= j < |h.cells| && h.cells[j] == d;
    if i < j { TilingDisjoint(base, h.cells, h.end, i, j); } else { TilingDisjoint(base, h.cells, h.end, j, i); }
  }

  lemma StepKeeps(h: Heap, c: Call, lim: Limits, base: int)
    requires Inv(h, base) && lim.limit <= HALF && Proper(h, c, lim)
    ensures Inv(Step(h, c, lim), base)
    ensures Used(Step(h, c, lim).cells) == After(Used(h.cells), h, c, lim)
  {
    match c
    case Alloc(size) =>
      MallocKeepsInv(h, size, lim, base);
      if Malloc(h, size, lim).1 != 0 { MallocGrants(h, size, lim, base); }
    case Release(ptr) =>
      if ptr == 0 {
        assert After(Used(h.cells), h, c, lim) == Used(h.cells);
      } else {
        var d :| d in Used(h.cells) && d.addr + HEADER == ptr;
        var i :| 0 <= i < |h.cells| && h.cells[i] == d;
        FreeKeepsInv(h, base, i);
        forall e | e in Used(h.cells) && e != d ensures e.addr != d.addr {
          UsedAddresses(h, base, d, e);
        }
        assert After(Used(h.cells), h, c, lim) == Used(h.cells) - {d};
      }
  }

  /**
   * Over every run the pool stays tiled with exact counters, and the blocks in
   * use are exactly those handed out and not given back, each as it was granted.
   */
  lemma {:induction false} RunKeeps(h: Heap, calls: seq<Call>, lim: Limits, base: int)
    requires Inv(h, base) && lim.limit <= HALF && ProperRun(h, calls, lim)
    ensures Inv(Run(h, calls, lim), base)
    ensures Used(Run(h, calls, lim).cells) == Outstanding(Used(h.cells), h, calls, lim)
    decreases |calls|
  {
    if calls != [] {
      StepKeeps(h, calls[0], lim, base);
      RunKeeps(Step(h, calls[0], lim), calls[1..], lim, base);
    }
  }

  /** Two callers never share memory, after any run from the empty pool. */
  lemma RunDisjoint(calls: seq<Call>, lim: Limits, base: int, c: Cell, d: Cell)
    requires 0 < base < HALF && Word(base) && lim.limit <= HALF
    requires ProperRun(Heap([], base, 0, 0), calls, lim) && c != d
    requires c in Outstanding({}, Heap([], base, 0, 0), calls, lim)
    requires d in Outstanding({}, Heap([], base, 0, 0), calls, lim)
    ensures c.End() <= d.addr || d.End() <= c.addr
  {
    var h := Heap([], base, 0, 0);
    assert Used(h.cells) == {};
    RunKeeps(h, calls, lim, base);
    UsedAddresses(Run(h, calls, lim), base, c, d);
  }

  // ---- blk_rearrange

  /** merge_blocks on neighbours */
  function MergeAt(cells: seq<Cell>, i: nat): seq<Cell>
    requires i + 1 < |cells|
  {
    var c, d := cells[i], cells[i + 1];
    cells[..i] + [c.(size := Wrap(Wrap(c.size + HEADER) + d.size))] + cells[i + 2..]
  }

  /** The first merge: position of the block afterwards, and the list. */
  function MergeBack(cells: seq<Cell>, i: nat): (r: (seq<Cell>, nat))
    requires i < |cells|
    ensures r.1 < |r.0|
  {
    if i > 0 && !cells[i - 1].used then (MergeAt(cells, i - 1), i - 1) else (cells, i)
  }

  function MergeForward(cells: seq<Cell>, i: nat): (r: seq<Cell>)
    requires i < |cells|
    ensures i < |r|
  {
    if i + 1 < |cells| && !cells[i + 1].used then MergeAt(cells, i) else cells
  }

  /** f_compact: the last block goes back to the system unless it is also the first. */
  function Compact(h: Heap, i: nat): Heap
    requires i < |h.cells|
  {
    if i == |h.cells| - 1 && i > 0 then
      h.(cells := h.cells[..i], end := Wrap(h.end - Wrap(h.cells[i].size + HEADER)))
    else h
  }

  /** blk_rearrange */
  function Rearrange(h: Heap, i: nat): Heap
    requires i < |h.cells|
  {
    var (back, j) := MergeBack(h.cells, i);
    Compact(h.(cells := MergeForward(back, j)), j)
  }

  lemma MergeKeeps(from: int, cells: seq<Cell>, to: int, i: nat)
    requires Tiling(from, cells, to) && to - from < HALF
    requires i + 1 < |cells| && !cells[i].used && !cells[i + 1].used
    ensures var r := MergeAt(cells, i);
      && Tiling(from, r, to) && !r[i].used
      && UsedCount(r) == UsedCount(cells) && UsedBytes(r) == UsedBytes(cells)
      && Used(r) == Used(cells)
  {
    hide UsedCount, UsedBytes, Used;
    var pre, c, d, post := cells[..i], cells[i], cells[i + 1], cells[i + 2..];
    var r := MergeAt(cells, i);
    assert cells == pre + ([c, d] + post);
    assert r == pre + ([r[i]] + post);
    TilingBounds(from, cells, to);
    TilingConcat(from, pre, [c, d] + post, to);
    TilingConcat(Stop(from, pre), [c, d], post, to);
    assert [c, d][1..] == [d] && [d][1..] == [];
    assert Tiling(Stop(from, pre), [c, d], d.End());
    assert Tiling(c.End(), [d], d.End());
    WordSum(c.size, d.size);
    WordSum(c.size + d.size, 0);
    assert [r[i]][1..] == [];
    TilingConcat(Stop(from, pre), [r[i]], post, to);
    TilingConcat(from, pre, [r[i]] + post, to);
    MergeUsed(cells, i);
  }

  lemma FreeFirst(c: Cell, s: seq<Cell>)
    requires !c.used
    ensures UsedCount([c] + s) == UsedCount(s) && UsedBytes([c] + s) == UsedBytes(s)
  {
    assert ([c] + s)[1..] == s;
  }

  lemma MergeUsed(cells: seq<Cell>, i: nat)
    requires i + 1 < |cells| && !cells[i].used && !cells[i + 1].used
    ensures var r := MergeAt(cells, i);
      UsedCount(r) == UsedCount(cells) && UsedBytes(r) == UsedBytes(cells) && Used(r) == Used(cells)
  {
    hide UsedCount, UsedBytes;
    var pre, c, d, post := cells[..i], cells[i], cells[i + 1], cells[i + 2..];
    var r := MergeAt(cells, i);
    assert cells == pre + ([c] + ([d] + post)) && r == pre + ([r[i]] + post);
    UsedConcat(pre, [c] + ([d] + post));
    UsedConcat(pre, [r[i]] + post);
    FreeFirst(c, [d] + post);
    FreeFirst(d, post);
    FreeFirst(r[i], post);
  }

  /** No two neighbours are free, except pairs with block i. */
  ghost predicate ApartExcept(cells: seq<Cell>, i: int) {
    forall k :: 0 <= k < |cells| - 1 && k != i && k + 1 != i ==> cells[k].used || cells[k + 1].used
  }

  ghost predicate Apart(cells: seq<Cell>) { ApartExcept(cells, -2) }

  /** The last block is in use, or it is the only one. */
  ghost predicate Trimmed(cells: seq<Cell>) {
    |cells| >= 2 ==> cells[|cells| - 1].used
  }

  lemma CompactKeeps(h: Heap, base: int, i: nat)
    requires Inv(h, base) && i < |h.cells| && !h.cells[i].used
    ensures var r := Compact(h, i);
      && Inv(r, base) && Used(r.cells) == Used(h.cells) && r.objects == h.objects && r.bytes == h.bytes
      && r.end == (if |r.cells| < |h.cells| then h.cells[|h.cells| - 1].addr else h.end)
  {
    TilingBounds(base, h.cells, h.end);
    if i == |h.cells| - 1 && i > 0 {
      var pre, c := h.cells[..i], h.cells[i];
      assert h.cells == pre + [c];
      TilingConcat(base, pre, [c], h.end);
      assert [c][1..] == [];
      TilingStop(base, pre, c.addr);
      UsedConcat(pre, [c]);
    }
  }

  lemma MergedInv(h: Heap, base: int, i: nat)
    requires Inv(h, base) && i < |h.cells| && !h.cells[i].used
    ensures var (back, j) := MergeBack(h.cells, i); var forward := MergeForward(back, j);
      Inv(h.(cells := forward), base) && Used(forward) == Used(h.cells) && !forward[j].used
  {
    hide UsedCount, UsedBytes, Used;
    TilingBounds(base, h.cells, h.end);
    var (back, j) := MergeBack(h.cells, i);
    if j < i { MergeKeeps(base, h.cells, h.end, j); }
    if j + 1 < |back| && !back[j + 1].used { MergeKeeps(base, back, h.end, j); }
  }

  /** Rearranging keeps the pool in order and the blocks in use untouched. */
  lemma RearrangeInv(h: Heap, base: int, i: nat)
    requires Inv(h, base) && i < |h.cells| && !h.cells[i].used
    ensures var r := Rearrange(h, i);
      Inv(r, base) && Used(r.cells) == Used(h.cells) && r.objects == h.objects && r.bytes == h.bytes
  {
    hide Inv, Used, Compact;
    var (back, j) := MergeBack(h.cells, i);
    MergedInv(h, base, i);
    CompactKeeps(h.(cells := MergeForward(back, j)), base, j);
  }

  /** The first and the last block of the free stretch around a freed block. */
  function FreeFrom(cells: seq<Cell>, i: nat): (lo: nat)
    requires i < |cells|
    ensures lo <= i
  {
    if i > 0 && !cells[i - 1].used then i - 1 else i
  }

  function FreeTo(cells: seq<Cell>, i: nat): (hi: nat)
    requires i < |cells|
    ensures i <= hi < |cells|
  {
    if i + 1 < |cells| && !cells[i + 1].used then i + 1 else i
  }

  /** A free last block is i or right behind it. */
  ghost predicate FreeTailAt(cells: seq<Cell>, i: nat) {
    |cells| >= 2 && !cells[|cells| - 1].used ==> |cells| - 2 <= i
  }

  /**
   * Freeing a block and rearranging, with no other free neighbours before: the pool stays
   * tiled, blocks in use are untouched, no free neighbours are left, and the end of the heap
   * moves back to the free stretch around the block exactly if that is last and not first.
   * A free last block remains exactly if it was free before and not next to the freed one.
   */
  lemma RearrangeKeeps(h: Heap, base: int, i: nat)
    requires Inv(h, base) && i < |h.cells| && !h.cells[i].used
    requires ApartExcept(h.cells, i)
    ensures var r := Rearrange(h, i); var lo := FreeFrom(h.cells, i);
      && Inv(r, base) && Used(r.cells) == Used(h.cells)
      && r.objects == h.objects && r.bytes == h.bytes
      && Apart(r.cells)
      && r.end == (if FreeTo(h.cells, i) == |h.cells| - 1 && lo > 0 then h.cells[lo].addr else h.end)
      && (Trimmed(r.cells) <==> FreeTailAt(h.cells, i))
  {
    hide Inv, Used, MergeAt;
    RearrangeInv(h, base, i);
    var (back, j) := MergeBack(h.cells, i);
    var forward := MergeForward(back, j);
    MergedInv(h, base, i);
    BackApart(h.cells, i);
    ForwardApart(back, j);
    CompactKeeps(h.(cells := forward), base, j);
    CompactApart(h.(cells := forward), j);
  }

  lemma CompactApart(h: Heap, i: nat)
    requires i < |h.cells| && !h.cells[i].used && Apart(h.cells) && (i > 0 ==> h.cells[i - 1].used)
    ensures var r := Compact(h, i).cells;
      && Apart(r) && (Trimmed(r) <==> |h.cells| == 1 || i == |h.cells| - 1 || h.cells[|h.cells| - 1].used)
      && (|r| < |h.cells| <==> i == |h.cells| - 1 && i > 0)
  {
  }

  lemma MergePositions(cells: seq<Cell>, i: nat)
    requires i + 1 < |cells|
    ensures var r := MergeAt(cells, i);
      && |r| == |cells| - 1 && r[i].used == cells[i].used
      && (forall k :: 0 <= k < i ==> r[k] == cells[k])
      && (forall k :: i < k < |r| ==> r[k] == cells[k + 1])
  {
  }

  lemma BackApart(cells: seq<Cell>, i: nat)
    requires i < |cells| && !cells[i].used && ApartExcept(cells, i)
    ensures var (r, j) := MergeBack(cells, i);
      && !r[j].used && (j > 0 ==> r[j - 1].used) && ApartExcept(r, j)
      && j == FreeFrom(cells, i) && r[j].addr == cells[j].addr && FreeTo(r, j) - j == FreeTo(cells, i) - i
      && |r| - j == |cells| - i && r[|r| - 1].used == cells[|cells| - 1].used
  {
    if i > 0 && !cells[i - 1].used { MergePositions(cells, i - 1); }
  }

  lemma ForwardApart(cells: seq<Cell>, i: nat)
    requires i < |cells| && !cells[i].used && ApartExcept(cells, i)
    requires i > 0 ==> cells[i - 1].used
    ensures var r := MergeForward(cells, i);
      && !r[i].used && Apart(r) && (i > 0 ==> r[i - 1].used)
      && r[i].addr == cells[i].addr && |r| - i == |cells| - FreeTo(cells, i)
      && r[|r| - 1].used == cells[|cells| - 1].used
  {
    if i + 1 < |cells| && !cells[i + 1].used {
      MergePositions(cells, i);
      var r := MergeAt(cells, i);
      forall k | 0 <= k < |r| - 1 ensures r[k].used || r[k + 1].used {
        if k < i - 1 { assert cells[k].used || cells[k + 1].used; }
        if k > i { assert cells[k + 1].used || cells[k + 2].used; }
        if k == i { assert cells[i + 1].used || cells[i + 2].used; }
      }
    }
  }
}
