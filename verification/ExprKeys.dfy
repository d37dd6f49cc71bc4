/**
 * What expr_eq accepts (kconfig/expr.c:189-229): exactly the expressions that are the same
 * up to the order and the grouping of operands, where no operand is y or n.
 */
module ExprKeys {
  import opened KconfigExpr
  import opened ExprYn
  import opened ExprEquality

  /** An expression without the order and the grouping of the operands of && and ||. */
  datatype Key = KLeaf(e: Expr) | KNot(arg: Key) | KChain(op: Op, operands: multiset<Key>)

  ghost function KeyOf(e: Expr): Key
    decreases Size(e), 1
  {
    match e
    case Bin(op, _, _) => KChain(op, Live(op, e))
    case Not(a) => KNot(KeyOf(a))
    case _ => KLeaf(e)
  }

  /** The operands of a chain of one operator, without y and n. */
  ghost function Live(op: Op, e: Expr): multiset<Key>
    decreases Size(e), if IsOp(op, e) then 0 else 2
  {
    if IsOp(op, e) then Live(op, e.left) + Live(op, e.right)
    else if IsYn(e) then multiset{}
    else multiset{KeyOf(e)}
  }

  /** No operand anywhere is y or n. */
  predicate Tidy(e: Expr) {
    match e
    case Bin(_, l, r) => Tidy(l) && Tidy(r) && !IsYn(l) && !IsYn(r)
    case Not(a) => Tidy(a)
    case _ => true
  }

  /** The operands of the chain itself may be y or n. */
  predicate TidyChain(op: Op, e: Expr) {
    if IsOp(op, e) then TidyChain(op, e.left) && TidyChain(op, e.right) else IsYn(e) || Tidy(e)
  }

  predicate HasZero(op: Op, e: Expr) {
    if IsOp(op, e) then HasZero(op, e.left) || HasZero(op, e.right) else IsZero(op, e)
  }

  lemma {:induction false} TidyIsChain(op: Op, e: Expr)
    requires Tidy(e)
    ensures TidyChain(op, e) && (!IsYn(e) ==> !HasZero(op, e) && Live(op, e) != multiset{})
  {
    if IsOp(op, e) {
      TidyIsChain(op, e.left);
      TidyIsChain(op, e.right);
    }
  }

  lemma {:induction false} TidyYnFree(e: Expr)
    requires Tidy(e)
    ensures EliminateYn(e) == e
  {
    match e
    case Bin(_, l, r) => TidyYnFree(l); TidyYnFree(r);
    case _ =>
  }

  /** What expr_eliminate_yn makes of a chain. */
  lemma {:induction false} ChainEliminated(op: Op, e: Expr)
    requires TidyChain(op, e)
    ensures var r := EliminateYn(e);
      && (HasZero(op, e) ==> r == Symbol(Zero(op)))
      && (!HasZero(op, e) ==> (r == Symbol(Unit(op)) <==> Live(op, e) == multiset{}))
      && (!HasZero(op, e) ==> Tidy(r) && r != Symbol(Zero(op)) && Live(op, r) == Live(op, e))
  {
    if IsOp(op, e) {
      ChainEliminated(op, e.left);
      ChainEliminated(op, e.right);
    } else {
      if !IsYn(e) { TidyYnFree(e); }
    }
  }

  // ---- one cancellation pass

  /** It has taken away from each chain what it has in common with the other. */
  ghost predicate Parted(op: Op, e1: Expr, e2: Expr, r: Cancelled) {
    && TidyChain(op, r.e1) && TidyChain(op, r.e2)
    && Live(op, r.e1) == Live(op, e1) - Live(op, e2) && Live(op, r.e2) == Live(op, e2) - Live(op, e1)
    && HasZero(op, r.e1) == HasZero(op, e1) && HasZero(op, r.e2) == HasZero(op, e2)
    && IsOp(op, r.e1) == IsOp(op, e1) && IsOp(op, r.e2) == IsOp(op, e2)
  }

  lemma {:induction false} CancelLive(op: Op, e1: Expr, e2: Expr)
    requires TidyChain(op, e1) && TidyChain(op, e2)
    ensures Parted(op, e1, e2, Cancel(op, e1, e2))
    decreases Size(e1) + Size(e2), if IsOp(op, e1) || IsOp(op, e2) then 0 else 4
  {
    hide KeyOf, Live, HasZero, Tidy, ExprEq;
    if IsOp(op, e1) {
      var a := Cancel(op, e1.left, e2);
      CancelLive(op, e1.left, e2);
      CancelLive(op, e1.right, a.e2);
      LeftParted(op, e1, e2, a, Cancel(op, e1.right, a.e2));
    } else if IsOp(op, e2) {
      var a := Cancel(op, e1, e2.left);
      CancelLive(op, e1, e2.left);
      CancelLive(op, a.e1, e2.right);
      RightParted(op, e1, e2, a, Cancel(op, a.e1, e2.right));
    } else {
      LeavesCancel(op, e1, e2);
    }
  }

  lemma {:induction false} LeavesCancel(op: Op, e1: Expr, e2: Expr)
    requires TidyChain(op, e1) && TidyChain(op, e2) && !IsOp(op, e1) && !IsOp(op, e2)
    ensures Parted(op, e1, e2, Cancel(op, e1, e2))
    decreases Size(e1) + Size(e2), 3
  {
    hide KeyOf, Live, HasZero, ExprEq, Cancel;
    if IsYn(e1) || IsYn(e2) { LeafEq(e1, e2); } else { ExprEqExact(e1, e2); }
    LeavesParted(op, e1, e2);
  }

  lemma LeafEq(e1: Expr, e2: Expr)
    requires IsYn(e1) || IsYn(e2)
    ensures ExprEq(e1, e2) <==> e1 == e2
  {
  }

  lemma LeavesParted(op: Op, e1: Expr, e2: Expr)
    requires TidyChain(op, e1) && TidyChain(op, e2) && !IsOp(op, e1) && !IsOp(op, e2)
    requires !IsYn(e1) && !IsYn(e2) ==> (ExprEq(e1, e2) <==> KeyOf(e1) == KeyOf(e2))
    requires IsYn(e1) || IsYn(e2) ==> (ExprEq(e1, e2) <==> e1 == e2)
    ensures Parted(op, e1, e2, Cancel(op, e1, e2))
  {
    LeafCancel(op, e1, e2);
    LeafLive(op, e1);
    LeafLive(op, e2);
    UnitLeaf(op);
    hide Cancel, Live, KeyOf, ExprEq, TidyChain, Tidy, HasZero;
    if IsYn(e1) || IsYn(e2) {
    } else if KeyOf(e1) == KeyOf(e2) {
      assert multiset{KeyOf(e1)} - multiset{KeyOf(e2)} == multiset{};
    } else {
      assert multiset{KeyOf(e1)} - multiset{KeyOf(e2)} == multiset{KeyOf(e1)};
      assert multiset{KeyOf(e2)} - multiset{KeyOf(e1)} == multiset{KeyOf(e2)};
    }
  }

  lemma UnitLeaf(op: Op)
    ensures var u := Symbol(Unit(op)); TidyChain(op, u) && !HasZero(op, u) && Live(op, u) == multiset{}
  {
    hide KeyOf;
  }

  lemma LeafCancel(op: Op, e1: Expr, e2: Expr)
    requires !IsOp(op, e1) && !IsOp(op, e2)
    ensures Cancel(op, e1, e2) ==
      if (e1 == e2 && IsYn(e1)) || !ExprEq(e1, e2) then Cancelled(e1, e2, 0)
      else Cancelled(Symbol(Unit(op)), Symbol(Unit(op)), 1)
  {
    hide ExprEq;
  }

  lemma LeafLive(op: Op, e: Expr)
    requires !IsOp(op, e)
    ensures Live(op, e) == if IsYn(e) then multiset{} else multiset{KeyOf(e)}
    ensures HasZero(op, e) ==> IsYn(e)
  {
    hide KeyOf;
  }

  lemma LeftParted(op: Op, e1: Expr, e2: Expr, a: Cancelled, b: Cancelled)
    requires IsOp(op, e1) && Parted(op, e1.left, e2, a) && Parted(op, e1.right, a.e2, b)
    ensures Parted(op, e1, e2, Cancelled(Bin(op, a.e1, b.e1), b.e2, a.count + b.count))
  {
    hide KeyOf;
    Twice(Live(op, e1.left), Live(op, e1.right), Live(op, e2));
  }

  lemma RightParted(op: Op, e1: Expr, e2: Expr, a: Cancelled, b: Cancelled)
    requires IsOp(op, e2) && Parted(op, e1, e2.left, a) && Parted(op, a.e1, e2.right, b)
    ensures Parted(op, e1, e2, Cancelled(b.e1, Bin(op, a.e2, b.e2), a.count + b.count))
  {
    hide KeyOf;
    Twice(Live(op, e2.left), Live(op, e2.right), Live(op, e1));
  }

  lemma Twice(l: multiset<Key>, r: multiset<Key>, m: multiset<Key>)
    ensures (l - m) + (r - (m - l)) == (l + r) - m
    ensures (m - l) - r == m - (l + r)
  {
  }

  /** Two chains of one operator are accepted exactly if both have an absorbing operand, or none has and the others are the same. */
  lemma ChainEqExact(op: Op, e1: Expr, e2: Expr)
    requires IsOp(op, e1) && IsOp(op, e2) && TidyChain(op, e1) && TidyChain(op, e2)
    ensures ExprEq(e1, e2) <==>
      if HasZero(op, e1) || HasZero(op, e2) then HasZero(op, e1) && HasZero(op, e2) else Live(op, e1) == Live(op, e2)
    decreases Size(e1) + Size(e2), 1
  {
    hide KeyOf, Cancel;
    var a := Cancel(op, e1, e2);
    CancelLive(op, e1, e2);
    ChainEliminated(op, a.e1);
    ChainEliminated(op, a.e2);
    var l1, l2, r := Live(op, e1), Live(op, e2), EliminateEq(e1, e2);
    assert r.e1 == EliminateYn(a.e1) && r.e2 == EliminateYn(a.e2);
    assert l1 - l2 == multiset{} && l2 - l1 == multiset{} <==> l1 == l2;
    Disjoint(l1, l2);
  }

  lemma Disjoint(l: multiset<Key>, r: multiset<Key>)
    ensures l - r == r - l ==> l - r == multiset{}
  {
    if l - r == r - l {
      forall k ensures (l - r)[k] == 0 { assert (l - r)[k] == (r - l)[k]; }
    }
  }

  /** expr_eq accepts exactly what differs at most in the order and the grouping of operands. */
  lemma {:induction false} ExprEqExact(e1: Expr, e2: Expr)
    requires Tidy(e1) && Tidy(e2)
    ensures ExprEq(e1, e2) <==> KeyOf(e1) == KeyOf(e2)
    decreases Size(e1) + Size(e2), 2
  {
    match (e1, e2)
    case (Not(a), Not(b)) => ExprEqExact(a, b);
    case (Bin(op1, _, _), Bin(op2, _, _)) =>
      if op1 == op2 {
        TidyIsChain(op1, e1);
        TidyIsChain(op1, e2);
        ChainEqExact(op1, e1, e2);
      }
    case _ =>
  }

  /** So order and grouping do not matter. */
  lemma ExprEqRegroups(op: Op, a: Expr, b: Expr, c: Expr)
    requires Tidy(a) && Tidy(b) && Tidy(c) && !IsYn(a) && !IsYn(b) && !IsYn(c)
    ensures ExprEq(Bin(op, a, b), Bin(op, b, a))
    ensures ExprEq(Bin(op, Bin(op, a, b), c), Bin(op, a, Bin(op, b, c)))
  {
    var ab, ba, bc := Bin(op, a, b), Bin(op, b, a), Bin(op, b, c);
    var left, right := Bin(op, ab, c), Bin(op, a, bc);
    ExprEqExact(ab, ba);
    ExprEqExact(left, right);
    hide ExprEq;
    assert Live(op, ab) == Live(op, a) + Live(op, b) == Live(op, ba);
    assert Live(op, left) == Live(op, ab) + Live(op, c);
    assert Live(op, right) == Live(op, a) + Live(op, bc) == Live(op, a) + (Live(op, b) + Live(op, c));
    assert Live(op, left) == Live(op, right);
  }

  /** A chain of this operator, or a single operand. */
  predicate Chain(op: Op, e: Expr) { TidyChain(op, e) && (e.Bin? ==> e.op == op) }

  /** Nothing is left of a chain exactly if the other one has all its operands. */
  lemma EliminateEqExact(op: Op, e1: Expr, e2: Expr)
    requires Chain(op, e1) && Chain(op, e2) && (e1.Bin? || e2.Bin?)
    ensures EliminateEq(e1, e2).e2 == Symbol(Unit(op)) <==> !HasZero(op, e2) && Live(op, e2) <= Live(op, e1)
  {
    hide KeyOf, Cancel, ExprEq;
    var a := Cancel(op, e1, e2);
    CancelLive(op, e1, e2);
    CancelKeepsLeaf(op, e1, e2);
    ChainEliminated(op, a.e2);
    assert EliminateEq(e1, e2).e2 == EliminateYn(a.e2);
    hide Live;
    NothingLeft(Live(op, e1), Live(op, e2));
  }

  lemma {:induction false} CancelKeepsLeaf(op: Op, e1: Expr, e2: Expr)
    ensures !e2.Bin? ==> !Cancel(op, e1, e2).e2.Bin?
    decreases e1
  {
    hide ExprEq;
    if IsOp(op, e1) {
      CancelKeepsLeaf(op, e1.left, e2);
      CancelKeepsLeaf(op, e1.right, Cancel(op, e1.left, e2).e2);
    }
  }

  lemma NothingLeft(l: multiset<Key>, r: multiset<Key>)
    ensures r - l == multiset{} <==> r <= l
  {
    if r - l == multiset{} {
      forall k ensures r[k] <= l[k] { assert (r - l)[k] == 0; }
    }
  }
}
