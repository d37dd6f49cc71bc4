/**
 * What expr_extract_eq finds (kconfig/expr.c:826-872): exactly the operands that two
 * chains share, so that the test of expr_eliminate_dups2 is inclusion of operands.
 */
module ExprShares {
  import opened KconfigExpr
  import opened ExprYn
  import opened ExprEquality
  import opened ExprTransform
  import opened ExprExtract
  import opened ExprKeys

  /** A chain without an operand that absorbs the others. */
  predicate Plain(op: Op, e: Expr) { TidyChain(op, e) && !HasZero(op, e) }

  ghost function CollectedLive(op: Op, acc: Collected): multiset<Key> {
    match acc
    case Nothing => multiset{}
    case Found(c) => Live(op, c)
  }

  /** Each chain has lost what it shares with the other, and that has been collected. */
  ghost predicate Shared(op: Op, acc: Collected, e1: Expr, e2: Expr, r: Extracted) {
    && Plain(op, r.e1) && Plain(op, r.e2)
    && Live(op, r.e1) == Live(op, e1) - Live(op, e2) && Live(op, r.e2) == Live(op, e2) - Live(op, e1)
    && CollectedLive(op, r.acc) == CollectedLive(op, acc) + (Live(op, e1) * Live(op, e2))
    && IsOp(op, r.e1) == IsOp(op, e1) && IsOp(op, r.e2) == IsOp(op, e2)
  }

  lemma {:induction false} ExtractShares(op: Op, acc: Collected, e1: Expr, e2: Expr)
    requires Plain(op, e1) && Plain(op, e2)
    ensures Shared(op, acc, e1, e2, ExtractEq(op, acc, e1, e2))
    decreases Size(e1) + Size(e2)
  {
    hide KeyOf, Live, Tidy, ExprEq, CollectedLive;
    if IsOp(op, e1) {
      var a := ExtractEq(op, acc, e1.left, e2);
      ExtractShares(op, acc, e1.left, e2);
      ExtractShares(op, a.acc, e1.right, a.e2);
      LeftShared(op, acc, e1, e2, a, ExtractEq(op, a.acc, e1.right, a.e2));
    } else if IsOp(op, e2) {
      var a := ExtractEq(op, acc, e1, e2.left);
      ExtractShares(op, acc, e1, e2.left);
      ExtractShares(op, a.acc, a.e1, e2.right);
      RightShared(op, acc, e1, e2, a, ExtractEq(op, a.acc, a.e1, e2.right));
    } else {
      LeavesShared(op, acc, e1, e2);
    }
  }

  lemma LeavesShared(op: Op, acc: Collected, e1: Expr, e2: Expr)
    requires Plain(op, e1) && Plain(op, e2) && !IsOp(op, e1) && !IsOp(op, e2)
    ensures Shared(op, acc, e1, e2, ExtractEq(op, acc, e1, e2))
  {
    hide KeyOf, Live, Tidy, HasZero, ExtractEq, CollectedLive;
    LeafExtract(op, acc, e1, e2);
    if IsYn(e1) || IsYn(e2) { LeafEq(e1, e2); } else { ExprEqExact(e1, e2); }
    hide ExprEq, TidyChain;
    ghost var c := CollectedLive(op, acc);
    if ExprEq(e1, e2) {
      LeavesSame(op, e1, e2);
    } else {
      LeavesDiffer(op, e1, e2);
      assert c + (Live(op, e1) * Live(op, e2)) == c;
    }
  }

  lemma LeavesSame(op: Op, e1: Expr, e2: Expr)
    requires Plain(op, e1) && Plain(op, e2) && !IsOp(op, e1) && !IsOp(op, e2)
    requires if IsYn(e1) || IsYn(e2) then e1 == e2 else KeyOf(e1) == KeyOf(e2)
    ensures Live(op, e1) - Live(op, e2) == multiset{} == Live(op, e2) - Live(op, e1)
    ensures Live(op, e1) * Live(op, e2) == Live(op, e1)
  {
    LeafLive(op, e1);
    LeafLive(op, e2);
  }

  lemma LeafExtract(op: Op, acc: Collected, e1: Expr, e2: Expr)
    requires Plain(op, e1) && !IsOp(op, e1) && !IsOp(op, e2)
    ensures var r := ExtractEq(op, acc, e1, e2);
      if ExprEq(e1, e2) then
        && r.e1 == r.e2 == Symbol(Unit(op)) && Plain(op, r.e1) && Live(op, r.e1) == multiset{}
        && CollectedLive(op, r.acc) == CollectedLive(op, acc) + Live(op, e1)
      else
        r == Extracted(acc, e1, e2)
  {
    UnitLeaf(op);
    hide KeyOf, ExprEq, Tidy;
  }

  lemma LeavesDiffer(op: Op, e1: Expr, e2: Expr)
    requires Plain(op, e1) && Plain(op, e2) && !IsOp(op, e1) && !IsOp(op, e2)
    requires IsYn(e1) || IsYn(e2) || KeyOf(e1) != KeyOf(e2)
    ensures Live(op, e1) - Live(op, e2) == Live(op, e1) && Live(op, e2) - Live(op, e1) == Live(op, e2)
    ensures Live(op, e1) * Live(op, e2) == multiset{}
  {
    LeafLive(op, e1);
    LeafLive(op, e2);
  }

  lemma LeftShared(op: Op, acc: Collected, e1: Expr, e2: Expr, a: Extracted, b: Extracted)
    requires IsOp(op, e1) && Shared(op, acc, e1.left, e2, a) && Shared(op, a.acc, e1.right, a.e2, b)
    ensures Shared(op, acc, e1, e2, Extracted(b.acc, Bin(op, a.e1, b.e1), b.e2))
  {
    hide KeyOf, CollectedLive;
    Twice(Live(op, e1.left), Live(op, e1.right), Live(op, e2));
    CommonTwice(Live(op, e1.left), Live(op, e1.right), Live(op, e2));
  }

  lemma RightShared(op: Op, acc: Collected, e1: Expr, e2: Expr, a: Extracted, b: Extracted)
    requires IsOp(op, e2) && Shared(op, acc, e1, e2.left, a) && Shared(op, a.acc, a.e1, e2.right, b)
    ensures Shared(op, acc, e1, e2, Extracted(b.acc, b.e1, Bin(op, a.e2, b.e2)))
  {
    hide KeyOf, CollectedLive;
    Twice(Live(op, e2.left), Live(op, e2.right), Live(op, e1));
    CommonTwice(Live(op, e2.left), Live(op, e2.right), Live(op, e1));
  }

  lemma CommonTwice(l: multiset<Key>, r: multiset<Key>, m: multiset<Key>)
    ensures (l * m) + (r * (m - l)) == (l + r) * m
    ensures (m * l) + ((m - l) * r) == m * (l + r)
  {
  }

  /** Everything of the first chain can be extracted exactly if the second has all its operands. */
  lemma WholeExtracted(op: Op, e1: Expr, e2: Expr)
    requires Tidy(e1) && Tidy(e2) && !IsYn(e1) && !IsYn(e2)
    ensures ExtractEqTop(op, e1, e2).e1 == Symbol(Unit(op)) <==> Live(op, e1) <= Live(op, e2)
  {
    hide KeyOf, Live, ExtractEq, Shared, TidyChain, HasZero, Tidy, EliminateYn;
    TidyIsChain(op, e1);
    TidyIsChain(op, e2);
    ExtractShares(op, Nothing, e1, e2);
    NothingFound(op, Nothing, e1, e2);
    RestTells(op, e1, e2, ExtractEq(op, Nothing, e1, e2));
  }

  lemma RestTells(op: Op, e1: Expr, e2: Expr, r: Extracted)
    requires Plain(op, e1) && !IsYn(e1) && Live(op, e1) != multiset{} && Shared(op, Nothing, e1, e2, r)
    requires r.acc == Nothing ==> r.e1 == e1
    ensures (if r.acc.Found? then EliminateYn(r.e1) else r.e1) == Symbol(Unit(op)) <==> Live(op, e1) <= Live(op, e2)
  {
    ChainEliminated(op, r.e1);
    NothingLeft(Live(op, e2), Live(op, e1));
    hide KeyOf, Live, TidyChain, Tidy, HasZero, CollectedLive;
  }

  /** Only what is collected is taken out. */
  lemma {:induction false} NothingFound(op: Op, acc: Collected, e1: Expr, e2: Expr)
    ensures var r := ExtractEq(op, acc, e1, e2); r.acc == Nothing ==> acc == Nothing && r.e1 == e1 && r.e2 == e2
    decreases Size(e1) + Size(e2)
  {
    hide ExprEq;
    if IsOp(op, e1) {
      var a := ExtractEq(op, acc, e1.left, e2);
      NothingFound(op, acc, e1.left, e2);
      NothingFound(op, a.acc, e1.right, a.e2);
    } else if IsOp(op, e2) {
      var a := ExtractEq(op, acc, e1, e2.left);
      NothingFound(op, acc, e1, e2.left);
      NothingFound(op, a.acc, a.e1, e2.right);
    }
  }

  /** So an operand is excluded exactly if the other one has all the operands of its negation. */
  lemma ExcludesIncludes(op: Op, x: Expr, y: Expr)
    requires var t := Transform(Not(x)); Tidy(t) && Tidy(y) && !IsYn(t) && !IsYn(y)
    ensures Excludes(op, x, y) <==> Live(op, Transform(Not(x))) <= Live(op, y)
  {
    WholeExtracted(op, Transform(Not(x)), y);
  }
}
