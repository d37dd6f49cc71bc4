/**
 * Block headers in memory, linked by next and prev, and the list of blocks
 * that such a memory stands for.
 */
module MallocLinks {
  import opened MallocHeap

  const MAGIC: int := 0xDECEA5ED
  const IN_USE: bv32 := 0x20
  const NULL: int := 0

  /** struct f_malloc_block; the payload begins HEADER bytes after its address. */
  datatype Block = Block(magic: int, prev: int, next: int, size: u32, flags: bv32)
  {
    predicate InUse() { flags & IN_USE == IN_USE }
  }

  // ---- the linked list in memory, as values

  type Memory = map<int, Block>

  /** Where the chain goes on after its first i blocks. */
  ghost function Next(chain: seq<int>, i: nat): int {
    if i < |chain| then chain[i] else NULL
  }

  /** The next pointers of valid headers run through exactly these addresses. */
  ghost predicate Linked(m: Memory, chain: seq<int>) {
    && NULL !in m
    && (forall i {:trigger chain[i] in m} {:trigger m[chain[i]]} ::
      0 <= i < |chain| ==> chain[i] in m && m[chain[i]].magic == MAGIC)
    && (forall i {:trigger m[chain[i]]} :: 0 <= i < |chain| ==> m[chain[i]].next == Next(chain, i + 1))
  }

  ghost function CellAt(m: Memory, a: int): Cell
    requires a in m
  {
    Cell(a, m[a].size, m[a].InUse())
  }

  ghost function Cells(m: Memory, chain: seq<int>): (r: seq<Cell>)
    requires Linked(m, chain)
    ensures |r| == |chain|
    ensures forall i {:trigger r[i]} :: 0 <= i < |chain| ==> r[i] == CellAt(m, chain[i])
  {
    seq(|chain|, i requires 0 <= i < |chain| => CellAt(m, chain[i]))
  }

  /** The prev pointers undo the next pointers. f_malloc and f_free never read them. */
  ghost predicate PrevInverts(m: Memory, chain: seq<int>) {
    forall i {:trigger m[chain[i]]} :: 0 <= i < |chain| && chain[i] in m ==>
      m[chain[i]].prev == if i == 0 then NULL else chain[i - 1]
  }

  /** Blocks lie in address order, and nothing in the chain starts inside block b. */
  lemma Ordered(m: Memory, chain: seq<int>, from: int, to: int, b: nat)
    requires Linked(m, chain) && Tiling(from, Cells(m, chain), to) && b < |chain|
    ensures forall i :: 0 <= i < b ==> chain[i] < chain[b]
    ensures forall i :: b < i < |chain| ==> chain[b] + HEADER + m[chain[b]].size <= chain[i]
    ensures from <= chain[b] && chain[b] + HEADER + m[chain[b]].size <= to
  {
    var cells := Cells(m, chain);
    TilingBounds(from, cells, to);
    assert cells[b] == CellAt(m, chain[b]);
    forall i | 0 <= i < b ensures chain[i] < chain[b] { TilingDisjoint(from, cells, to, i, b); }
    forall i | b < i < |chain| ensures chain[b] + HEADER + m[chain[b]].size <= chain[i] {
      TilingDisjoint(from, cells, to, b, i);
    }
  }

  /** A header that is rewritten without moving its block or its next pointer. */
  lemma UpdateLinks(m: Memory, chain: seq<int>, from: int, to: int, b: nat, x: Block)
    requires Linked(m, chain) && Tiling(from, Cells(m, chain), to) && b < |chain|
    requires x.magic == MAGIC && x.next == m[chain[b]].next && x.prev == m[chain[b]].prev
    ensures var n := m[chain[b] := x];
      && Linked(n, chain) && Cells(n, chain) == Cells(m, chain)[b := Cell(chain[b], x.size, x.InUse())]
      && (PrevInverts(m, chain) <==> PrevInverts(n, chain))
  {
    Ordered(m, chain, from, to, b);
    var n := m[chain[b] := x];
    assert forall i :: 0 <= i < |chain| && i != b ==> n[chain[i]] == m[chain[i]];
    assert forall i :: 0 <= i < |chain| ==> n[chain[i]].prev == m[chain[i]].prev;
  }

  /** c is the chain with f inserted behind position b, and n memory after the cut. */
  ghost predicate Spliced(m: Memory, chain: seq<int>, b: nat, x: Block, f: int, y: Block, n: Memory, c: seq<int>) {
    && b < |chain| && |c| == |chain| + 1 && c[b + 1] == f
    && (forall i {:trigger c[i]} :: 0 <= i <= b ==> c[i] == chain[i])
    && (forall i {:trigger c[i]} :: b + 1 < i < |c| ==> c[i] == chain[i - 1])
    && chain[b] in n && n[chain[b]] == x && f in n && n[f] == y
    && (forall i {:trigger chain[i]} :: 0 <= i < |chain| && i != b ==>
      chain[i] in m && chain[i] in n && n[chain[i]] == m[chain[i]])
  }

  /** What is written away from the chain. */
  lemma ElsewhereLinks(m: Memory, chain: seq<int>, a: int, x: Block)
    requires Linked(m, chain) && a in m && a !in chain
    ensures var n := m[a := x];
      Linked(n, chain) && Cells(n, chain) == Cells(m, chain) && (PrevInverts(m, chain) <==> PrevInverts(n, chain))
  {
    var n := m[a := x];
    assert forall i :: 0 <= i < |chain| ==> chain[i] in n && n[chain[i]] == m[chain[i]];
  }

  lemma SplicedNext(m: Memory, chain: seq<int>, b: nat, x: Block, f: int, y: Block, n: Memory, c: seq<int>, i: nat)
    requires Linked(m, chain) && Spliced(m, chain, b, x, f, y, n, c) && i < |c|
    requires x.magic == MAGIC && x.next == f && y.magic == MAGIC && y.next == m[chain[b]].next
    ensures c[i] in n && n[c[i]].magic == MAGIC && n[c[i]].next == Next(c, i + 1)
  {
    if i < b {
      assert n[c[i]] == m[chain[i]] && c[i + 1] == chain[i + 1];
    } else if i > b {
      var j := i - 1;
      assert m[chain[j]].next == Next(chain, j + 1) == Next(c, i + 1);
      if i > b + 1 { assert c[i] == chain[j]; }
    }
  }

  lemma SplicedCells(m: Memory, chain: seq<int>, b: nat, x: Block, f: int, y: Block, n: Memory, c: seq<int>)
    requires Linked(m, chain) && Spliced(m, chain, b, x, f, y, n, c) && Linked(n, c)
    ensures Cells(n, c) ==
      Replace(Cells(m, chain), b, [Cell(chain[b], x.size, x.InUse()), Cell(f, y.size, y.InUse())])
  {
    var cells := Cells(m, chain);
    var r := Replace(cells, b, [Cell(chain[b], x.size, x.InUse()), Cell(f, y.size, y.InUse())]);
    forall i | 0 <= i < |c| ensures Cells(n, c)[i] == r[i] {
      if i < b {
        assert r[i] == cells[i] && c[i] == chain[i];
      } else if i > b + 1 {
        assert r[i] == cells[i - 1] && c[i] == chain[i - 1];
      }
    }
  }

  /** The old successor keeps pointing back to the front half, so prev is right only if there is none. */
  lemma SplicedPrev(m: Memory, chain: seq<int>, b: nat, x: Block, f: int, y: Block, n: Memory, c: seq<int>)
    requires Linked(m, chain) && Spliced(m, chain, b, x, f, y, n, c) && PrevInverts(m, chain)
    requires f != chain[b] && x.prev == m[chain[b]].prev && y.prev == chain[b]
    ensures PrevInverts(n, c) <==> b == |chain| - 1
  {
    forall i | 0 <= i < |c| && i != b + 2 ensures c[i] in n && n[c[i]].prev == if i == 0 then NULL else c[i - 1] {
      if i <= b {
        assert m[chain[i]].prev == if i == 0 then NULL else chain[i - 1];
        if i > 0 { assert c[i - 1] == chain[i - 1]; }
      } else if i > b + 1 {
        assert m[chain[i - 1]].prev == chain[i - 2] == c[i - 1];
      }
    }
    if b < |chain| - 1 {
      assert m[chain[b + 1]].prev == chain[b] && c[b + 2] == chain[b + 1];
      assert n[c[b + 2]].prev != c[b + 1];
    }
  }

  /** A block cut in two. */
  lemma SplitLinks(m: Memory, chain: seq<int>, from: int, to: int, b: nat, x: Block, f: int, y: Block)
    requires Linked(m, chain) && Tiling(from, Cells(m, chain), to) && b < |chain| && from > 0
    requires x.magic == MAGIC && x.next == f && x.prev == m[chain[b]].prev
    requires y.magic == MAGIC && y.next == m[chain[b]].next && y.prev == chain[b]
    requires chain[b] < f < chain[b] + HEADER + m[chain[b]].size
    ensures var n := m[chain[b] := x][f := y]; var c := chain[..b + 1] + [f] + chain[b + 1..];
      && Linked(n, c)
      && Cells(n, c) == Replace(Cells(m, chain), b, [Cell(chain[b], x.size, x.InUse()), Cell(f, y.size, y.InUse())])
      && (PrevInverts(m, chain) ==> (PrevInverts(n, c) <==> b == |chain| - 1))
  {
    Ordered(m, chain, from, to, b);
    var n, c := m[chain[b] := x][f := y], chain[..b + 1] + [f] + chain[b + 1..];
    SpliceMakes(m, chain, b, x, f, y);
    forall i | 0 <= i < |c| ensures c[i] in n && n[c[i]].magic == MAGIC && n[c[i]].next == Next(c, i + 1) {
      SplicedNext(m, chain, b, x, f, y, n, c, i);
    }
    SplicedCells(m, chain, b, x, f, y, n, c);
    if PrevInverts(m, chain) { SplicedPrev(m, chain, b, x, f, y, n, c); }
  }

  lemma SpliceMakes(m: Memory, chain: seq<int>, b: nat, x: Block, f: int, y: Block)
    requires b < |chain| && chain[b] != f
    requires forall i :: 0 <= i < |chain| && i != b ==> chain[i] in m && chain[i] != chain[b] && chain[i] != f
    ensures Spliced(m, chain, b, x, f, y, m[chain[b] := x][f := y], chain[..b + 1] + [f] + chain[b + 1..])
  {
  }

  /** A new last block. */
  lemma GrowLinks(m: Memory, chain: seq<int>, from: int, to: int, x: Block)
    requires Linked(m, chain) && Tiling(from, Cells(m, chain), to) && 0 < from <= to
    requires x.magic == MAGIC && x.next == NULL && x.prev == (if chain == [] then NULL else chain[|chain| - 1])
    ensures to !in chain && (chain != [] ==> chain[|chain| - 1] in m && chain[|chain| - 1] != NULL)
    ensures var n := m[to := x]; var c := chain + [to]; var last := |chain| - 1;
      var n' := if chain == [] then n else n[chain[last] := n[chain[last]].(next := to)];
      && Linked(n', c)
      && Cells(n', c) == Cells(m, chain) + [Cell(to, x.size, x.InUse())]
      && (PrevInverts(m, chain) ==> PrevInverts(n', c))
  {
    if chain != [] { Ordered(m, chain, from, to, |chain| - 1); }
    TilingBounds(from, Cells(m, chain), to);
    assert forall i :: 0 <= i < |chain| ==> chain[i] < to;
  }

  lemma ReplaceFront(cells: seq<Cell>, b: nat, x: Cell, y: Cell, z: Cell)
    requires b < |cells|
    ensures Replace(cells, b, [x, y])[b := z] == Replace(cells, b, [z, y])
  {
  }

  lemma ReplaceOne(cells: seq<Cell>, b: nat, x: Cell)
    requires b < |cells|
    ensures cells[b := x] == Replace(cells, b, [x])
  {
  }

  lemma CutTiles(c: Cell, n: u32)
    requires n <= c.size && Word(n) && Word(c.size) && c.size < HALF && Splits(c.size, n)
    ensures Tiling(c.addr, [Cell(c.addr, n, false), Cut(c, n)[1]], c.End())
  {
    var r := [Cell(c.addr, n, false), Cut(c, n)[1]];
    assert Word(c.size - HEADER - n);
    assert r[1..] == [r[1]] && [r[1]][1..] == [];
    assert Tiling(r[0].End(), [r[1]], c.End());
  }
}
