/**
 * The cancelling and duplicate-eliminating functions of kconfig/expr.c on heap
 * nodes, with the counter trans_count they share. The two cursors of the
 * duplicate passes are slots below one region root, see ExprRegion.
 */
module ExprRewriter {
  import opened KconfigExpr
  import opened ExprYn
  import opened ExprEquality
  import opened ExprTransform
  import opened ExprJoin
  import opened ExprRegion
  import opened ExprExtract
  import opened ExprDups
  import opened ExprNodes
  import opened ExprJoinNodes

  class Rewriter {
    var transCount: int

    constructor ()
      ensures transCount == 0
    {
      transCount := 0;
    }

    /** __expr_eliminate_eq: what the two slots hold afterwards is returned. */
    method CancelNodes(op: Op, e1: Node, e2: Node) returns (n1: Node, n2: Node)
      requires e1.Valid() && e2.Valid() && e1.repr !! e2.repr
      modifies this, e1.repr, e2.repr
      ensures n1.Valid() && n2.Valid() && n1.repr !! n2.repr
      ensures fresh(n1.repr - old(e1.repr)) && fresh(n2.repr - old(e2.repr))
      ensures var r := Cancel(op, old(e1.expr), old(e2.expr));
        n1.expr == r.e1 && n2.expr == r.e2 && transCount == old(transCount) + r.count
      decreases Size(e1.expr) + Size(e2.expr), if IsOp(op, e1.expr) || IsOp(op, e2.expr) then 0 else 3, 1
    {
      if e1.kind == EBin(op) {
        n1, n2 := CancelLeftNodes(op, e1, e2);
      } else if e2.kind == EBin(op) {
        n1, n2 := CancelRightNodes(op, e1, e2);
      } else {
        n1, n2 := e1, e2;
        if e1.kind == ESymbol && e2.kind == ESymbol && e1.lsym == e2.lsym && (e1.lsym == Yes || e1.lsym == No) {
          return;
        }
        var same := ExprEqNodes(e1, e2);
        if same {
          transCount := transCount + 1;
          n1 := new Node.Leaf(Unit(op));
          n2 := new Node.Leaf(Unit(op));
        }
      }
    }

    method CancelLeftNodes(op: Op, e1: Node, e2: Node) returns (n1: Node, n2: Node)
      requires e1.Valid() && e2.Valid() && e1.repr !! e2.repr && IsOp(op, e1.expr)
      modifies this, e1.repr, e2.repr
      ensures n1.Valid() && n2.Valid() && n1.repr !! n2.repr
      ensures fresh(n1.repr - old(e1.repr)) && fresh(n2.repr - old(e2.repr))
      ensures var r := CancelLeft(op, old(e1.expr), old(e2.expr));
        n1.expr == r.e1 && n2.expr == r.e2 && transCount == old(transCount) + r.count
      decreases Size(e1.expr) + Size(e2.expr), 0, 0
    {
      var l, m := CancelNodes(op, e1.left, e2);
      assert e1.right.Valid() && e1.right.expr == old(e1.expr.right) && e1.right.repr !! l.repr + m.repr;
      var r;
      r, n2 := CancelNodes(op, e1.right, m);
      assert l.Valid() && l.repr !! r.repr + n2.repr;
      e1.SetOperands(l, r);
      n1 := e1;
    }

    method CancelRightNodes(op: Op, e1: Node, e2: Node) returns (n1: Node, n2: Node)
      requires e1.Valid() && e2.Valid() && e1.repr !! e2.repr && IsOp(op, e2.expr)
      modifies this, e1.repr, e2.repr
      ensures n1.Valid() && n2.Valid() && n1.repr !! n2.repr
      ensures fresh(n1.repr - old(e1.repr)) && fresh(n2.repr - old(e2.repr))
      ensures var r := CancelRight(op, old(e1.expr), old(e2.expr));
        n1.expr == r.e1 && n2.expr == r.e2 && transCount == old(transCount) + r.count
      decreases Size(e1.expr) + Size(e2.expr), 0, 0
    {
      var m, l := CancelNodes(op, e1, e2.left);
      assert e2.right.Valid() && e2.right.expr == old(e2.expr.right) && e2.right.repr !! l.repr + m.repr;
      var r;
      n1, r := CancelNodes(op, m, e2.right);
      assert l.Valid() && l.repr !! r.repr + n1.repr;
      e2.SetOperands(l, r);
      n2 := e2;
    }

    /** expr_eliminate_eq */
    method EliminateEqNodes(e1: Node, e2: Node) returns (n1: Node, n2: Node)
      requires e1.Valid() && e2.Valid() && e1.repr !! e2.repr
      modifies this, e1.repr, e2.repr
      ensures n1.Valid() && n2.Valid() && n1.repr !! n2.repr
      ensures fresh(n1.repr - old(e1.repr)) && fresh(n2.repr - old(e2.repr))
      ensures var r := EliminateEq(old(e1.expr), old(e2.expr));
        n1.expr == r.e1 && n2.expr == r.e2 && transCount == old(transCount) + r.count
      decreases Size(e1.expr) + Size(e2.expr), 1
    {
      n1, n2 := e1, e2;
      if n1.kind.EBin? {
        n1, n2 := CancelNodes(n1.kind.op, n1, n2);
      }
      if n2.kind.EBin? && n1.kind != n2.kind {
        n1, n2 := CancelNodes(n2.kind.op, n1, n2);
      }
      EliminateYnNodes(n1);
      EliminateYnNodes(n2);
    }

    /** expr_eq: works on copies and leaves the counter as it was. */
    method ExprEqNodes(e1: Node, e2: Node) returns (res: bool)
      requires e1.Valid() && e2.Valid()
      modifies this
      ensures res == ExprEq(e1.expr, e2.expr)
      ensures transCount == old(transCount)
      decreases Size(e1.expr) + Size(e2.expr), 2
    {
      if e1.kind != e2.kind {
        return false;
      } else if e1.kind == ESymbol {
        return e1.lsym == e2.lsym;
      } else if e1.kind == ENot {
        res := ExprEqNodes(e1.left, e2.left);
      } else if e1.kind.EBin? {
        var c1 := CopyNodes(e1);
        var c2 := CopyNodes(e2);
        var oldCount := transCount;
        c1, c2 := EliminateEqNodes(c1, c2);
        res := c1.kind == ESymbol && c2.kind == ESymbol && c1.lsym == c2.lsym;
        transCount := oldCount;
      } else {
        return e1.lsym == e2.lsym && e1.rsym == e2.rsym;
      }
    }

    /**
     * expr_extract_eq. The caller below only asks whether *ep was set and then
     * drops the collected tree, so the method keeps the flag and leaves the
     * tree itself to the specification.
     */
    method ExtractNodes(op: Op, found: bool, ghost acc: Collected, e1: Node, e2: Node)
      returns (any: bool, ghost c: Collected, n1: Node, n2: Node)
      requires e1.Valid() && e2.Valid() && e1.repr !! e2.repr && found == acc.Found?
      modifies this, e1.repr, e2.repr
      ensures n1.Valid() && n2.Valid() && n1.repr !! n2.repr
      ensures fresh(n1.repr - old(e1.repr)) && fresh(n2.repr - old(e2.repr))
      ensures Extracted(c, n1.expr, n2.expr) == ExtractEq(op, acc, old(e1.expr), old(e2.expr)) && any == c.Found?
      ensures transCount == old(transCount)
      decreases Size(e1.expr) + Size(e2.expr), 1
    {
      if e1.kind == EBin(op) {
        any, c, n1, n2 := ExtractLeftNodes(op, found, acc, e1, e2);
      } else if e2.kind == EBin(op) {
        any, c, n1, n2 := ExtractRightNodes(op, found, acc, e1, e2);
      } else {
        any, c, n1, n2 := found, acc, e1, e2;
        var same := ExprEqNodes(e1, e2);
        if same {
          any, c := true, Found(if acc.Found? then Bin(op, acc.common, e1.expr) else e1.expr);
          n1 := new Node.Leaf(Unit(op));
          n2 := new Node.Leaf(Unit(op));
        }
      }
    }

    method ExtractLeftNodes(op: Op, found: bool, ghost acc: Collected, e1: Node, e2: Node)
      returns (any: bool, ghost c: Collected, n1: Node, n2: Node)
      requires e1.Valid() && e2.Valid() && e1.repr !! e2.repr && found == acc.Found? && IsOp(op, e1.expr)
      modifies this, e1.repr, e2.repr
      ensures n1.Valid() && n2.Valid() && n1.repr !! n2.repr
      ensures fresh(n1.repr - old(e1.repr)) && fresh(n2.repr - old(e2.repr))
      ensures Extracted(c, n1.expr, n2.expr) == ExtractLeft(op, acc, old(e1.expr), old(e2.expr)) && any == c.Found?
      ensures transCount == old(transCount)
      decreases Size(e1.expr) + Size(e2.expr), 0
    {
      var l, m, r;
      any, c, l, m := ExtractNodes(op, found, acc, e1.left, e2);
      assert e1.right.Valid() && e1.right.expr == old(e1.expr.right) && e1.right.repr !! l.repr + m.repr;
      any, c, r, n2 := ExtractNodes(op, any, c, e1.right, m);
      assert l.Valid() && l.repr !! r.repr + n2.repr;
      e1.SetOperands(l, r);
      n1 := e1;
    }

    method ExtractRightNodes(op: Op, found: bool, ghost acc: Collected, e1: Node, e2: Node)
      returns (any: bool, ghost c: Collected, n1: Node, n2: Node)
      requires e1.Valid() && e2.Valid() && e1.repr !! e2.repr && found == acc.Found?
      requires IsOp(op, e2.expr)
      modifies this, e1.repr, e2.repr
      ensures n1.Valid() && n2.Valid() && n1.repr !! n2.repr
      ensures fresh(n1.repr - old(e1.repr)) && fresh(n2.repr - old(e2.repr))
      ensures Extracted(c, n1.expr, n2.expr) == ExtractRight(op, acc, old(e1.expr), old(e2.expr)) && any == c.Found?
      ensures transCount == old(transCount)
      decreases Size(e1.expr) + Size(e2.expr), 0
    {
      var l, m, r;
      any, c, m, l := ExtractNodes(op, found, acc, e1, e2.left);
      assert e2.right.Valid() && e2.right.expr == old(e2.expr.right) && e2.right.repr !! l.repr + m.repr;
      any, c, n1, r := ExtractNodes(op, any, c, m, e2.right);
      assert l.Valid() && l.repr !! r.repr + n1.repr;
      e2.SetOperands(l, r);
      n2 := e2;
    }

    /** expr_join_and and expr_join_or; null when no rule applies. */
    method JoinNodes(op: Op, n1: Node, n2: Node) returns (t: Node?)
      requires n1.Valid() && n2.Valid()
      modifies this
      ensures transCount == old(transCount)
      ensures t == null <==> Join(op, n1.expr, n2.expr).None?
      ensures t != null ==> t.Valid() && fresh(t.repr) && t.expr == Join(op, n1.expr, n2.expr).value
    {
      var same := ExprEqNodes(n1, n2);
      if same {
        t := CopyNodes(n1);
      } else {
        if op == And { t := JoinAnd(n1, n2); } else { t := JoinOr(n1, n2); }
      }
    }

    /** The node a cursor points at. */
    method LoadNode(op: Op, e: Node, p: Slot) returns (n: Node)
      requires e.Valid() && InRegion(op, e.expr, p)
      ensures n.Valid() && n.repr <= e.repr && n.expr == At(op, e.expr, p)
      decreases p
    {
      if p == [] { return e; }
      n := LoadNode(op, if p[0] == L then e.left else e.right, p[1..]);
    }

    /** A store through a cursor. */
    method StoreNode(op: Op, e: Node, p: Slot, x: Node)
      requires e.Valid() && InRegion(op, e.expr, p) && p != []
      requires x.Valid() && x.repr !! e.repr
      modifies e.repr
      ensures e.Valid() && e.repr <= old(e.repr) + old(x.repr)
      ensures e.expr == Put(op, old(e.expr), p, old(x.expr))
      decreases p
    {
      if p[0] == L {
        if p[1..] == [] { e.left := x; } else { StoreNode(op, e.left, p[1..], x); }
      } else {
        if p[1..] == [] { e.right := x; } else { StoreNode(op, e.right, p[1..], x); }
      }
      e.Refresh();
    }

    /** expr_eliminate_dups1 */
    method Dups1Nodes(op: Op, e: Node, p: Slot, q: Slot)
      requires e.Valid() && InRegion(op, e.expr, p) && InRegion(op, e.expr, q)
      modifies this, e.repr
      ensures e.Valid() && fresh(e.repr - old(e.repr))
      ensures var r := Dups1(op, old(e.expr), p, q); e.expr == r.e && transCount == old(transCount) + r.count
      decreases Bulk(e.expr), RegionSize(op, At(op, e.expr, p)) + RegionSize(op, At(op, e.expr, q)), 1
    {
      var a := LoadNode(op, e, p);
      var b := LoadNode(op, e, q);
      if a.kind == EBin(op) {
        Dups1First(op, e, p, q);
      } else if b.kind == EBin(op) {
        Dups1Second(op, e, p, q);
      } else {
        JoinLeavesNodes(op, e, p, q);
      }
    }

    method Dups1First(op: Op, e: Node, p: Slot, q: Slot)
      requires e.Valid() && InRegion(op, e.expr, p) && InRegion(op, e.expr, q) && IsOp(op, At(op, e.expr, p))
      modifies this, e.repr
      ensures e.Valid() && fresh(e.repr - old(e.repr))
      ensures var r := Dups1(op, old(e.expr), p, q); e.expr == r.e && transCount == old(transCount) + r.count
      decreases Bulk(e.expr), RegionSize(op, At(op, e.expr, p)) + RegionSize(op, At(op, e.expr, q)), 0
    {
      ghost var e0 := e.expr;
      ChildSlot(op, e0, p, L);
      ChildSlot(op, e0, p, R);
      Dups1Nodes(op, e, p + [L], q);
      SameRegionSlots(op, e0, e.expr, p + [R]);
      SameRegionSlots(op, e0, e.expr, q);
      Dups1Nodes(op, e, p + [R], q);
    }

    method Dups1Second(op: Op, e: Node, p: Slot, q: Slot)
      requires e.Valid() && RegionLeaf(op, e.expr, p) && InRegion(op, e.expr, q) && IsOp(op, At(op, e.expr, q))
      modifies this, e.repr
      ensures e.Valid() && fresh(e.repr - old(e.repr))
      ensures var r := Dups1(op, old(e.expr), p, q); e.expr == r.e && transCount == old(transCount) + r.count
      decreases Bulk(e.expr), RegionSize(op, At(op, e.expr, p)) + RegionSize(op, At(op, e.expr, q)), 0
    {
      ghost var e0 := e.expr;
      ChildSlot(op, e0, q, L);
      ChildSlot(op, e0, q, R);
      Dups1Nodes(op, e, p, q + [L]);
      SameRegionSlots(op, e0, e.expr, q + [R]);
      SameRegionSlots(op, e0, e.expr, p);
      Dups1Nodes(op, e, p, q + [R]);
    }

    method JoinLeavesNodes(op: Op, e: Node, p: Slot, q: Slot)
      requires e.Valid() && RegionLeaf(op, e.expr, p) && RegionLeaf(op, e.expr, q)
      modifies this, e.repr
      ensures e.Valid() && fresh(e.repr - old(e.repr))
      ensures var r := JoinLeaves(op, old(e.expr), p, q); e.expr == r.e && transCount == old(transCount) + r.count
      decreases Bulk(e.expr), RegionSize(op, At(op, e.expr, p)) + RegionSize(op, At(op, e.expr, q)), 0
    {
      hide Dups1, Node.Valid, Bulk, RegionSize;
      if p == q { return; }
      ghost var e0 := e.expr;
      ghost var x := At(op, e0, p);
      PutBulk(op, e0, p, x);
      Dups1Below(op, e, p);
      ghost var n := if x.Bin? then Dups1(x.op, x, [], []) else Pass(x, 0);
      PutLeaf(op, e0, p, n.e);
      PutOther(op, e0, p, n.e, q);
      var n1 := LoadNode(op, e, p);
      var n2 := LoadNode(op, e, q);
      var t := JoinNodes(op, n1, n2);
      if t != null {
        JoinBulk(op, n1.expr, n2.expr);
        StoreJoin(op, e, p, q, t);
        transCount := transCount + 1;
      }
    }

    /** e1 = the unit of the operator, e2 = tmp. */
    method StoreJoin(op: Op, e: Node, p: Slot, q: Slot, t: Node)
      requires e.Valid() && RegionLeaf(op, e.expr, p) && RegionLeaf(op, e.expr, q) && p != q
      requires t.Valid() && t.repr !! e.repr && !IsOp(op, t.expr)
      modifies e.repr
      ensures e.Valid() && fresh(e.repr - old(e.repr) - old(t.repr))
      ensures e.expr == PutJoin(op, old(e.expr), p, q, old(t.expr))
    {
      PutOther(op, e.expr, p, Symbol(Unit(op)), q);
      StoreLeaf(op, e, p, Unit(op));
      StoreNode(op, e, q, t);
    }

    /** expr_eliminate_dups1 on the operand a cursor points at, with itself. */
    method Dups1Below(op: Op, e: Node, p: Slot)
      requires e.Valid() && InRegion(op, e.expr, p)
      modifies this, e.repr
      ensures e.Valid() && fresh(e.repr - old(e.repr))
      ensures var x := At(op, old(e.expr), p);
        var n := if x.Bin? then Dups1(x.op, x, [], []) else Pass(x, 0);
        e.expr == Put(op, old(e.expr), p, n.e) && transCount == old(transCount) + n.count
      decreases Bulk(At(op, e.expr, p)), 2 * Size(e.expr) + 1, |p|
    {
      if p == [] {
        if e.kind.EBin? {
          RegionSizeBound(e.kind.op, e.expr);
          Dups1Nodes(e.kind.op, e, [], []);
        }
      } else {
        Dups1Below(op, if p[0] == L then e.left else e.right, p[1..]);
        e.Refresh();
      }
    }

    /** expr_eliminate_dups2 */
    method Dups2Nodes(op: Op, e: Node, p: Slot, q: Slot)
      requires e.Valid() && InRegion(op, e.expr, p) && InRegion(op, e.expr, q)
      modifies this, e.repr
      ensures e.Valid() && fresh(e.repr - old(e.repr))
      ensures var r := Dups2(op, old(e.expr), p, q); e.expr == r.e && transCount == old(transCount) + r.count
      decreases Bulk(e.expr), RegionSize(op, At(op, e.expr, p)) + RegionSize(op, At(op, e.expr, q)), 1
    {
      var a := LoadNode(op, e, p);
      var b := LoadNode(op, e, q);
      if a.kind == EBin(op) {
        Dups2First(op, e, p, q);
      } else {
        ghost var e0 := e.expr;
        if b.kind == EBin(op) {
          Dups2Second(op, e, p, q);
          SameRegionSlots(op, e0, e.expr, p);
          SameRegionSlots(op, e0, e.expr, q);
        }
        ExcludeNodes(op, e, p, q);
      }
    }

    method Dups2First(op: Op, e: Node, p: Slot, q: Slot)
      requires e.Valid() && InRegion(op, e.expr, p) && InRegion(op, e.expr, q) && IsOp(op, At(op, e.expr, p))
      modifies this, e.repr
      ensures e.Valid() && fresh(e.repr - old(e.repr))
      ensures var r := Dups2(op, old(e.expr), p, q); e.expr == r.e && transCount == old(transCount) + r.count
      decreases Bulk(e.expr), RegionSize(op, At(op, e.expr, p)) + RegionSize(op, At(op, e.expr, q)), 0
    {
      ghost var e0 := e.expr;
      ChildSlot(op, e0, p, L);
      ChildSlot(op, e0, p, R);
      Dups2Nodes(op, e, p + [L], q);
      SameRegionSlots(op, e0, e.expr, p + [R]);
      SameRegionSlots(op, e0, e.expr, q);
      Dups2Nodes(op, e, p + [R], q);
    }

    /** The two calls on the operands of the second cursor; the caller goes on with what they leave. */
    method Dups2Second(op: Op, e: Node, p: Slot, q: Slot)
      requires e.Valid() && RegionLeaf(op, e.expr, p) && InRegion(op, e.expr, q) && IsOp(op, At(op, e.expr, q))
      modifies this, e.repr
      ensures e.Valid() && fresh(e.repr - old(e.repr))
      ensures var r := Dups2Operands(op, old(e.expr), p, q);
        e.expr == r.e && transCount == old(transCount) + r.count
      decreases Bulk(e.expr), RegionSize(op, At(op, e.expr, p)) + RegionSize(op, At(op, e.expr, q)), 0
    {
      ghost var e0 := e.expr;
      ChildSlot(op, e0, q, L);
      ChildSlot(op, e0, q, R);
      Dups2Nodes(op, e, p, q + [L]);
      SameRegionSlots(op, e0, e.expr, q + [R]);
      SameRegionSlots(op, e0, e.expr, p);
      Dups2Nodes(op, e, p, q + [R]);
    }

    method ExcludeNodes(op: Op, e: Node, p: Slot, q: Slot)
      requires e.Valid() && RegionLeaf(op, e.expr, p) && InRegion(op, e.expr, q)
      modifies this, e.repr
      ensures e.Valid() && fresh(e.repr - old(e.repr))
      ensures var r := Exclude(op, old(e.expr), p, q); e.expr == r.e && transCount == old(transCount) + r.count
      decreases Bulk(e.expr), RegionSize(op, At(op, e.expr, p)) + RegionSize(op, At(op, e.expr, q)), 0
    {
      var n1 := LoadNode(op, e, p);
      if p == q || !n1.kind.EBin? { return; }
      ghost var e0 := e.expr;
      ghost var x := At(op, e0, p);
      PutBulk(op, e0, p, x);
      Dups2Below(op, e, p);
      PutLeaf(op, e0, p, Dups2(x.op, x, [], []).e);
      SameRegionSlots(op, e0, e.expr, q);
      ExcludeLeafNodes(op, e, p, q);
    }

    method ExcludeLeafNodes(op: Op, e: Node, p: Slot, q: Slot)
      requires e.Valid() && RegionLeaf(op, e.expr, p) && InRegion(op, e.expr, q)
      requires At(op, e.expr, p).Bin? && p != []
      modifies this, e.repr
      ensures e.Valid() && fresh(e.repr - old(e.repr))
      ensures var r := ExcludeLeaf(op, old(e.expr), p, q);
        e.expr == r.e && transCount == old(transCount) + r.count
    {
      var n1 := LoadNode(op, e, p);
      var n2 := LoadNode(op, e, q);
      var excluded := ExcludesNodes(op, n1, n2);
      if excluded {
        StoreLeaf(op, e, p, Zero(op));
        transCount := transCount + 1;
      }
    }

    method StoreLeaf(op: Op, e: Node, p: Slot, s: Sym)
      requires e.Valid() && InRegion(op, e.expr, p) && p != []
      modifies e.repr
      ensures e.Valid() && fresh(e.repr - old(e.repr)) && e.expr == Put(op, old(e.expr), p, Symbol(s))
    {
      var z := new Node.Leaf(s);
      StoreNode(op, e, p, z);
    }

    /** Extract the negation of a copy of n1 from a copy of n2 and see whether anything remains. */
    method ExcludesNodes(op: Op, n1: Node, n2: Node) returns (excluded: bool)
      requires n1.Valid() && n2.Valid()
      modifies this
      ensures excluded == Excludes(op, n1.expr, n2.expr)
      ensures transCount == old(transCount)
    {
      var t1 := NegateNodes(n1);
      var t2 := CopyNodes(n2);
      t1, t2 := ExtractTopNodes(op, t1, t2);
      excluded := t1.kind == ESymbol && t1.lsym == Unit(op);
    }

    /** expr_transform(expr_alloc_one(E_NOT, expr_copy(e1))) */
    method NegateNodes(n: Node) returns (t: Node)
      requires n.Valid()
      ensures t.Valid() && fresh(t.repr) && t.expr == Transform(Not(n.expr))
    {
      var c := CopyNodes(n);
      t := new Node.One(c);
      t := TransformNodes(t);
    }

    /** expr_extract_eq_and and expr_extract_eq_or */
    method ExtractTopNodes(op: Op, e1: Node, e2: Node) returns (n1: Node, n2: Node)
      requires e1.Valid() && e2.Valid() && e1.repr !! e2.repr
      modifies this, e1.repr, e2.repr
      ensures n1.Valid() && n2.Valid()
      ensures n1.expr == ExtractEqTop(op, old(e1.expr), old(e2.expr)).e1
      ensures n2.expr == ExtractEqTop(op, old(e1.expr), old(e2.expr)).e2
      ensures transCount == old(transCount)
    {
      ghost var c;
      var any;
      any, c, n1, n2 := ExtractNodes(op, false, Nothing, e1, e2);
      if any {
        EliminateYnNodes(n1);
        EliminateYnNodes(n2);
      }
    }

    /** expr_eliminate_dups2 on the operand a cursor points at, with itself. */
    method Dups2Below(op: Op, e: Node, p: Slot)
      requires e.Valid() && InRegion(op, e.expr, p) && At(op, e.expr, p).Bin?
      modifies this, e.repr
      ensures e.Valid() && fresh(e.repr - old(e.repr))
      ensures var x := At(op, old(e.expr), p); var n := Dups2(x.op, x, [], []);
        e.expr == Put(op, old(e.expr), p, n.e) && transCount == old(transCount) + n.count
      decreases Bulk(At(op, e.expr, p)), 2 * Size(e.expr) + 1, |p|
    {
      if p == [] {
        RegionSizeBound(e.kind.op, e.expr);
        Dups2Nodes(e.kind.op, e, [], []);
      } else {
        Dups2Below(op, if p[0] == L then e.left else e.right, p[1..]);
        e.Refresh();
      }
    }

    /** expr_eliminate_dups: rounds until one leaves trans_count at zero. */
    method EliminateDupsNodes(e: Node)
      requires e.Valid()
      modifies this, e.repr
      ensures e.Valid() && fresh(e.repr - old(e.repr))
      ensures e.expr == EliminateDups(old(e.expr))
      ensures transCount == old(transCount)
    {
      var oldCount := transCount;
      while true
        invariant e.Valid() && fresh(e.repr - old(e.repr))
        invariant EliminateDups(e.expr) == EliminateDups(old(e.expr))
        decreases if YnFree(e.expr) then 0 else 1, Bulk(e.expr)
      {
        RoundProgress(e.expr);
        RoundNodes(e);
        if transCount == 0 { break; }
        EliminateYnNodes(e);
      }
      transCount := oldCount;
    }

    method RoundNodes(e: Node)
      requires e.Valid()
      modifies this, e.repr
      ensures e.Valid() && fresh(e.repr - old(e.repr))
      ensures var r := Round(old(e.expr)); e.expr == r.e && transCount == r.count
    {
      transCount := 0;
      if e.kind.EBin? {
        Dups1Nodes(e.kind.op, e, [], []);
        Dups2Nodes(e.kind.op, e, [], []);
      }
    }
  }

  lemma {:induction false} RegionSizeBound(op: Op, e: Expr)
    ensures RegionSize(op, e) <= Size(e)
  {
    if IsOp(op, e) { RegionSizeBound(op, e.left); RegionSizeBound(op, e.right); }
  }
}
