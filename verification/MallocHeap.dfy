/**
 * The kernel pool of kernel/malloc.c as the list of its blocks: best fit,
 * splitting, growing, freeing, and merging of neighbours.
 */
module MallocHeap {
  import opened Machine

  /** sizeof(struct f_malloc_block) on a 32-bit target. */
  const HEADER: int := 24
  const HALF: int := 0x8000_0000

  type u32 = x: int | 0 <= x < WORD

  /** size_t and uint32_t arithmetic, one wrap-around at most. */
  function Wrap(x: int): u32
    requires -WORD <= x < 2 * WORD
  {
    if x < 0 then x + WORD else if x >= WORD then x - WORD else x
  }

  datatype Cell = Cell(addr: int, size: u32, used: bool)
  {
    function End(): int { addr + HEADER + size }
  }

  /** The blocks from malloc_entry on, heap_end_kernel and two of the statistics. */
  datatype Heap = Heap(cells: seq<Cell>, end: u32, objects: u32, bytes: u32)

  /** heap_limit_kernel and heap_stack. */
  datatype Limits = Limits(limit: int, stack: int)

  /** A multiple of the alignment. */
  predicate Word(x: int) { x % 4 == 0 }

  /** The rounding loop of f_malloc, with size_t wrap-around. */
  function RoundUp(size: u32): (n: u32)
    ensures Word(n)
    ensures size <= WORD - 4 ==> size <= n < size + 4
    ensures size > WORD - 4 ==> n == 0
  {
    ((size + 3) / 4 * 4) % WORD
  }

  /** block_fits */
  predicate Fits(c: Cell, n: u32) { !c.used && n <= c.size }

  /** f_find_best_fit after i blocks: the first of the smallest that fit, or -1. */
  function Best(cells: seq<Cell>, n: u32, i: nat): (b: int)
    requires i <= |cells|
    ensures -1 <= b < i
    ensures b >= 0 ==> Fits(cells[b], n)
  {
    if i == 0 then -1
    else
      var b := Best(cells, n, i - 1);
      if Fits(cells[i - 1], n) && (b < 0 || cells[i - 1].size < cells[b].size) then i - 1 else b
  }

  /** The test in f_malloc and the one in split_block, both in size_t arithmetic. */
  predicate Splits(size: u32, n: u32) {
    Wrap(2 * Wrap(n + HEADER)) < size && Wrap(size - HEADER) > n
  }

  /** The block handed out, and the free rest if it was cut. */
  function Cut(c: Cell, n: u32): (r: seq<Cell>)
    requires n <= c.size
    ensures |r| > 0
  {
    if Splits(c.size, n) then
      [Cell(c.addr, n, true), Cell(c.addr + HEADER + n, Wrap(c.size - HEADER - n), false)]
    else
      [c.(used := true)]
  }

  function Replace(cells: seq<Cell>, b: nat, piece: seq<Cell>): seq<Cell>
    requires b < |cells|
  {
    cells[..b] + piece + cells[b + 1..]
  }

  function Int32(x: u32): int { if x < HALF then x else x - WORD }

  /** f_malloc: the heap afterwards and the pointer returned, 0 for NULL. */
  function Malloc(h: Heap, size: u32, lim: Limits): (Heap, int) {
    var n := RoundUp(size);
    var b := Best(h.cells, n, |h.cells|);
    if b >= 0 then Reuse(h, n, b) else Grow(h, n, lim)
  }

  function Reuse(h: Heap, n: u32, b: nat): (Heap, int)
    requires b < |h.cells| && Fits(h.cells[b], n)
  {
    var cut := Cut(h.cells[b], n);
    (Granted(h, Replace(h.cells, b, cut), h.end, cut[0].size), cut[0].addr + HEADER)
  }

  /** The end that f_sbrk tries: the increment is an int, and the sum a 32-bit pointer. */
  function NewEnd(end: u32, n: u32): u32 { Wrap(end + Int32(Wrap(n + HEADER))) }

  /** New memory from f_sbrk. */
  function Grow(h: Heap, n: u32, lim: Limits): (Heap, int) {
    var end := NewEnd(h.end, n);
    if end >= lim.limit || end > lim.stack then (h, 0)
    else (Granted(h, h.cells + [Cell(h.end, n, true)], end, n), h.end + HEADER)
  }

  function Granted(h: Heap, cells: seq<Cell>, end: u32, size: u32): Heap {
    Heap(cells, end, Wrap(h.objects + 1), Wrap(h.bytes + Wrap(size + HEADER)))
  }

  /** Position of the block at an address, or the length of the list. */
  function Find(cells: seq<Cell>, addr: int): (i: nat)
    ensures i <= |cells|
    ensures i < |cells| ==> cells[i].addr == addr
    ensures forall j :: 0 <= j < i ==> cells[j].addr != addr
  {
    if cells == [] || cells[0].addr == addr then 0 else 1 + Find(cells[1..], addr)
  }

  /** f_free of a payload pointer: the counters go down even on a second free. */
  function Free(h: Heap, ptr: int): Heap {
    var i := Find(h.cells, ptr - HEADER);
    if ptr == 0 || i == |h.cells| then h
    else
      var c := h.cells[i];
      Heap(h.cells[i := c.(used := false)], h.end, Wrap(h.objects - 1), Wrap(h.bytes - Wrap(c.size + HEADER)))
  }

  // ---- what every run keeps

  /** The blocks lie end to end from one address to another, word-sized. */
  ghost predicate Tiling(from: int, cells: seq<Cell>, to: int)
    decreases |cells|
  {
    if cells == [] then from == to
    else cells[0].addr == from && Word(cells[0].size) && Tiling(cells[0].End(), cells[1..], to)
  }

  /** Where the last block ends. */
  ghost function Stop(from: int, cells: seq<Cell>): int {
    if cells == [] then from else cells[|cells| - 1].End()
  }

  function UsedCount(cells: seq<Cell>): nat {
    if cells == [] then 0 else UsedCount(cells[1..]) + if cells[0].used then 1 else 0
  }

  function UsedBytes(cells: seq<Cell>): nat {
    if cells == [] then 0 else UsedBytes(cells[1..]) + if cells[0].used then cells[0].size + HEADER else 0
  }

  ghost predicate Inv(h: Heap, base: int) {
    && 0 < base && h.end < HALF && Word(base)
    && Tiling(base, h.cells, h.end)
    && h.objects == UsedCount(h.cells)
    && h.bytes == UsedBytes(h.cells)
  }

  lemma {:induction false} TilingConcat(from: int, a: seq<Cell>, b: seq<Cell>, to: int)
    ensures Tiling(from, a + b, to) <==> Tiling(from, a, Stop(from, a)) && Tiling(Stop(from, a), b, to)
    decreases |a|
  {
    if a == [] {
      assert a + b == b;
    } else {
      assert (a + b)[1..] == a[1..] + b;
      assert Stop(a[0].End(), a[1..]) == Stop(from, a);
      TilingConcat(a[0].End(), a[1..], b, to);
    }
  }

  lemma {:induction false} TilingStop(from: int, cells: seq<Cell>, to: int)
    requires Tiling(from, cells, to)
    ensures to == Stop(from, cells)
    decreases |cells|
  {
    if cells != [] { TilingStop(cells[0].End(), cells[1..], to); }
  }

  lemma {:induction false} UsedConcat(a: seq<Cell>, b: seq<Cell>)
    ensures UsedCount(a + b) == UsedCount(a) + UsedCount(b)
    ensures UsedBytes(a + b) == UsedBytes(a) + UsedBytes(b)
  {
    if a == [] {
      assert a + b == b;
    } else {
      assert (a + b)[1..] == a[1..] + b;
      UsedConcat(a[1..], b);
    }
  }

  /** The region a tiling covers, and what it can hold in use at most. */
  lemma {:induction false} TilingBounds(from: int, cells: seq<Cell>, to: int)
    requires Tiling(from, cells, to)
    ensures from + UsedBytes(cells) <= to && UsedCount(cells) <= UsedBytes(cells)
    ensures forall i :: 0 <= i < |cells| ==> from <= cells[i].addr && cells[i].End() <= to
    decreases |cells|
  {
    if cells != [] {
      TilingBounds(cells[0].End(), cells[1..], to);
      forall i | 0 < i < |cells|
        ensures from <= cells[i].addr && cells[i].End() <= to
      {
        assert cells[i] == cells[1..][i - 1];
      }
    }
  }

  lemma WordSum(x: int, y: int)
    requires Word(x) && Word(y)
    ensures Word(x + y) && Word(x + HEADER)
  {
  }

  lemma {:induction false} TilingWords(from: int, cells: seq<Cell>, to: int)
    requires Tiling(from, cells, to) && Word(from)
    ensures Word(to)
    ensures forall i :: 0 <= i < |cells| ==> Word(cells[i].addr) && Word(cells[i].size)
    decreases |cells|
  {
    if cells != [] {
      WordSum(from, cells[0].size);
      WordSum(from + cells[0].size, 0);
      TilingWords(cells[0].End(), cells[1..], to);
      forall i | 0 < i < |cells| ensures Word(cells[i].addr) && Word(cells[i].size) {
        assert cells[i] == cells[1..][i - 1];
      }
    }
  }

  /** Different blocks do not overlap. */
  lemma {:induction false} TilingDisjoint(from: int, cells: seq<Cell>, to: int, i: nat, j: nat)
    requires Tiling(from, cells, to) && i < j < |cells|
    ensures cells[i].End() <= cells[j].addr
    decreases |cells|
  {
    if i == 0 {
      TilingBounds(cells[0].End(), cells[1..], to);
      assert cells[j] == cells[1..][j - 1];
    } else {
      TilingDisjoint(cells[0].End(), cells[1..], to, i - 1, j - 1);
    }
  }

  lemma SplitAt(cells: seq<Cell>, b: nat)
    requires b < |cells|
    ensures cells == cells[..b] + ([cells[b]] + cells[b + 1..])
  {
  }

  /** Replacing one block by others over the same addresses. */
  lemma ReplaceKeeps(from: int, cells: seq<Cell>, to: int, b: nat, piece: seq<Cell>)
    requires b < |cells| && Tiling(from, cells, to)
    requires Tiling(cells[b].addr, piece, cells[b].End())
    ensures Tiling(from, Replace(cells, b, piece), to)
    ensures UsedCount(Replace(cells, b, piece)) == UsedCount(cells) - UsedCount([cells[b]]) + UsedCount(piece)
    ensures UsedBytes(Replace(cells, b, piece)) == UsedBytes(cells) - UsedBytes([cells[b]]) + UsedBytes(piece)
  {
    var pre, post := cells[..b], cells[b + 1..];
    SplitAt(cells, b);
    var mid := Stop(from, pre);
    TilingConcat(from, pre, [cells[b]] + post, to);
    TilingConcat(mid, [cells[b]], post, to);
    TilingStop(cells[b].addr, piece, cells[b].End());
    TilingConcat(mid, piece, post, to);
    TilingConcat(from, pre, piece + post, to);
    assert Replace(cells, b, piece) == pre + (piece + post);
    UsedConcat(pre, [cells[b]] + post);
    UsedConcat([cells[b]], post);
    UsedConcat(pre, piece + post);
    UsedConcat(piece, post);
  }

  /** The block chosen is the first of the smallest that fit; -1 means that none fits. */
  lemma {:induction false} BestIsSmallest(cells: seq<Cell>, n: u32, i: nat)
    requires i <= |cells|
    ensures var b := Best(cells, n, i);
      forall j :: 0 <= j < i && Fits(cells[j], n) ==>
        b >= 0 && cells[b].size <= cells[j].size && (j < b ==> cells[b].size < cells[j].size)
  {
    if i > 0 { BestIsSmallest(cells, n, i - 1); }
  }

  /** The part of the pool that belongs to callers. */
  ghost function Used(cells: seq<Cell>): set<Cell> {
    set c | c in cells && c.used
  }

  lemma CutKeeps(c: Cell, n: u32)
    requires !c.used && n <= c.size && Word(n) && Word(c.size) && c.size < HALF
    ensures var r := Cut(c, n);
      && Tiling(c.addr, r, c.End())
      && r[0].used && r[0].addr == c.addr && n <= r[0].size
      && UsedCount(r) == 1 && UsedBytes(r) == r[0].size + HEADER
      && Used(r) == {r[0]}
      && (|r| == 2 <==> 2 * (n + HEADER) < c.size) && |r| <= 2
      && r[0].size == (if |r| == 2 then n else c.size)
  {
    var r := Cut(c, n);
    assert Word(c.size - HEADER - n);
    if |r| == 2 {
      assert r[1..] == [r[1]] && r[1..][1..] == [];
      assert Tiling(r[0].End(), [r[1]], c.End());
      assert UsedCount([r[1]]) == 0 && UsedBytes([r[1]]) == 0;
      assert r == [r[0], r[1]];
    } else {
      assert r == [r[0]] && r[1..] == [];
    }
  }

  lemma UsedReplace(cells: seq<Cell>, b: nat, piece: seq<Cell>)
    requires b < |cells| && !cells[b].used
    ensures Used(Replace(cells, b, piece)) == Used(cells) + Used(piece)
  {
    SplitAt(cells, b);
  }

  /**
   * f_malloc keeps the pool in order, except in one case: no free block fits, and
   * memory is granted although the increment does not fit the int that f_sbrk takes.
   */
  lemma MallocKeepsInv(h: Heap, size: u32, lim: Limits, base: int)
    requires Inv(h, base) && lim.limit <= HALF
    ensures var r := Malloc(h, size, lim); var n := RoundUp(size);
      (Inv(r.0, base) <==> r.1 == 0 || Best(h.cells, n, |h.cells|) >= 0 || n + HEADER < HALF) &&
      (r.1 == 0 ==> r.0 == h)
  {
    TilingBounds(base, h.cells, h.end);
    var n := RoundUp(size);
    var b := Best(h.cells, n, |h.cells|);
    if b >= 0 {
      assert Malloc(h, size, lim) == Reuse(h, n, b);
      ReuseKeepsInv(h, n, b, base);
    } else {
      assert Malloc(h, size, lim) == Grow(h, n, lim);
      GrowKeepsInv(h, n, lim, base);
    }
  }

  lemma ReuseKeepsInv(h: Heap, n: u32, b: nat, base: int)
    requires Inv(h, base) && b < |h.cells| && Fits(h.cells[b], n) && Word(n)
    ensures Inv(Reuse(h, n, b).0, base)
  {
    TilingBounds(base, h.cells, h.end);
    TilingWords(base, h.cells, h.end);
    var cut := Cut(h.cells[b], n);
    CutKeeps(h.cells[b], n);
    ReplaceKeeps(base, h.cells, h.end, b, cut);
    TilingBounds(base, Replace(h.cells, b, cut), h.end);
  }

  lemma GrowKeepsInv(h: Heap, n: u32, lim: Limits, base: int)
    requires Inv(h, base) && lim.limit <= HALF && Word(n)
    ensures var r := Grow(h, n, lim); Inv(r.0, base) <==> r.1 == 0 || n + HEADER < HALF
  {
    var c := Cell(h.end, n, true);
    var r := Grow(h, n, lim);
    TilingBounds(base, h.cells, h.end);
    TilingStop(base, h.cells, h.end);
    TilingConcat(base, h.cells, [c], r.0.end);
    UsedConcat(h.cells, [c]);
    assert [c][1..] == [];
    if r.1 != 0 && n + HEADER < HALF {
      TilingBounds(base, h.cells + [c], r.0.end);
    }
  }

  /** With room left, a size whose increment is a negative int is granted exactly if the sum wraps around zero. */
  lemma WrappedGrant(h: Heap, n: u32, lim: Limits)
    requires h.end < lim.limit <= HALF && h.end <= lim.stack && HALF <= n + HEADER < WORD
    ensures Grow(h, n, lim).1 != 0 <==> h.end + n + HEADER >= WORD
  {
    assert Int32(Wrap(n + HEADER)) == n + HEADER - WORD;
  }

  /** The block that f_malloc hands out. */
  function Chosen(h: Heap, size: u32): Cell {
    var n := RoundUp(size);
    var b := Best(h.cells, n, |h.cells|);
    if b >= 0 then Cut(h.cells[b], n)[0] else Cell(h.end, n, true)
  }

  /**
   * What a caller gets: a block of its own with word-aligned payload, whose size is enough
   * unless rounding wrapped, and which lies in the heap exactly if the increment fits an
   * int or a free block was reused; every other block in use is untouched.
   */
  lemma MallocGrants(h: Heap, size: u32, lim: Limits, base: int)
    requires Inv(h, base) && Malloc(h, size, lim).1 != 0 && lim.limit <= HALF
    ensures var r, c := Malloc(h, size, lim), Chosen(h, size);
      && r.1 == c.addr + HEADER && Word(r.1)
      && c.used && c !in Used(h.cells) && Used(r.0.cells) == Used(h.cells) + {c}
      && RoundUp(size) <= c.size && (size <= c.size || size > WORD - 4)
      && (c.End() <= r.0.end <==> Best(h.cells, RoundUp(size), |h.cells|) >= 0 || RoundUp(size) + HEADER < HALF)
  {
    var n := RoundUp(size);
    var b := Best(h.cells, n, |h.cells|);
    TilingBounds(base, h.cells, h.end);
    TilingWords(base, h.cells, h.end);
    WordSum(Chosen(h, size).addr, 0);
    if b >= 0 {
      CutKeeps(h.cells[b], n);
      UsedReplace(h.cells, b, Cut(h.cells[b], n));
      OthersElsewhere(base, h.cells, h.end, b);
    } else {
      UsedGrow(h.cells, Cell(h.end, n, true));
    }
  }

  lemma UsedGrow(cells: seq<Cell>, c: Cell)
    requires c.used
    ensures Used(cells + [c]) == Used(cells) + {c}
  {
  }

  lemma OthersElsewhere(from: int, cells: seq<Cell>, to: int, b: nat)
    requires Tiling(from, cells, to) && b < |cells|
    ensures forall i :: 0 <= i < |cells| && i != b ==> cells[i].addr != cells[b].addr
  {
    forall i | 0 <= i < |cells| && i != b ensures cells[i].addr != cells[b].addr {
      if i < b { TilingDisjoint(from, cells, to, i, b); } else { TilingDisjoint(from, cells, to, b, i); }
    }
  }

  lemma {:induction false} FindAt(from: int, cells: seq<Cell>, to: int, i: nat)
    requires Tiling(from, cells, to) && i < |cells|
    ensures Find(cells, cells[i].addr) == i
  {
    var j := Find(cells, cells[i].addr);
    if j < i { TilingDisjoint(from, cells, to, j, i); }
  }

  /** f_free of a block in use takes exactly that block away from the callers. */
  lemma FreeKeepsInv(h: Heap, base: int, i: nat)
    requires Inv(h, base) && i < |h.cells| && h.cells[i].used
    ensures var r := Free(h, h.cells[i].addr + HEADER);
      Inv(r, base) && Used(r.cells) == Used(h.cells) - {h.cells[i]}
  {
    FindAt(base, h.cells, h.end, i);
    TilingBounds(base, h.cells, h.end);
    TilingWords(base, h.cells, h.end);
    var c := h.cells[i];
    var d := c.(used := false);
    var r := Free(h, c.addr + HEADER);
    assert r.cells == Replace(h.cells, i, [d]);
    ReplaceKeeps(base, h.cells, h.end, i, [d]);
    OthersElsewhere(base, h.cells, h.end, i);
    UsedFree(h.cells, i);
  }

  lemma UsedFree(cells: seq<Cell>, i: nat)
    requires i < |cells| && cells[i].used
    requires forall k :: 0 <= k < |cells| && k != i ==> cells[k].addr != cells[i].addr
    ensures Used(cells[i := cells[i].(used := false)]) == Used(cells) - {cells[i]}
  {
    var after := cells[i := cells[i].(used := false)];
    forall e | e in Used(cells) && e != cells[i] ensures e in Used(after) {
      var k :| 0 <= k < |cells| && cells[k] == e;
      assert after[k] == e;
    }
  }

  /** A second free of the same pointer is counted again. */
  lemma DoubleFreeMiscounts(h: Heap, base: int, i: nat)
    requires Inv(h, base) && i < |h.cells| && !h.cells[i].used
    ensures !Inv(Free(h, h.cells[i].addr + HEADER), base)
  {
    FindAt(base, h.cells, h.end, i);
    TilingBounds(base, h.cells, h.end);
    assert h.cells[i := h.cells[i].(used := false)] == h.cells;
  }

  // ---- when memory is granted, and which

  /** The first of the smallest free blocks that are large enough. */
  ghost predicate BestFit(cells: seq<Cell>, n: u32, b: int) {
    && 0 <= b < |cells| && !cells[b].used && n <= cells[b].size
    && forall j :: 0 <= j < |cells| && !cells[j].used && n <= cells[j].size ==>
      cells[b].size <= cells[j].size && (j < b ==> cells[b].size < cells[j].size)
  }

  lemma BestIsBestFit(cells: seq<Cell>, n: u32)
    ensures var b := Best(cells, n, |cells|); b >= 0 ==> BestFit(cells, n, b)
  {
    BestIsSmallest(cells, n, |cells|);
  }

  /** A block is reused as far as it is needed, with all others left alone. */
  lemma MallocReuses(h: Heap, size: u32, lim: Limits, base: int, b: int)
    requires Inv(h, base) && BestFit(h.cells, RoundUp(size), b)
    ensures var r := Malloc(h, size, lim); var c := h.cells[b];
      && r.1 == c.addr + HEADER && r.0.end == h.end
      && r.0.cells == h.cells[..b] + Cut(c, RoundUp(size)) + h.cells[b + 1..]
  {
    BestIsSmallest(h.cells, RoundUp(size), |h.cells|);
    TilingBounds(base, h.cells, h.end);
    TilingWords(base, h.cells, h.end);
    CutKeeps(h.cells[b], RoundUp(size));
    hide Cut, Best;
  }

  /** If no free block is large enough, the pool grows by what is needed, exactly if that stays within its limits. */
  lemma MallocGrows(h: Heap, size: u32, lim: Limits, base: int)
    requires Inv(h, base) && RoundUp(size) + HEADER < HALF && forall b :: !BestFit(h.cells, RoundUp(size), b)
    ensures var r := Malloc(h, size, lim); var n := RoundUp(size); var end := h.end + HEADER + n;
      if end < lim.limit && end <= lim.stack then
        && r.1 == h.end + HEADER && r.0.end == end && r.0.cells == h.cells + [Cell(h.end, n, true)]
        && r.0.objects == h.objects + 1 && r.0.bytes == h.bytes + HEADER + n
      else
        r == (h, 0)
  {
    BestIsBestFit(h.cells, RoundUp(size));
    TilingBounds(base, h.cells, h.end);
    hide Best, RoundUp;
  }
}
