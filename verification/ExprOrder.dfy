/**
 * Operands with y or n inside: expr_eq (kconfig/expr.c:189-229) is then not transitive, and
 * an expression need not be accepted with its operands in another order.
 */
module ExprOrder {
  import opened KconfigExpr
  import opened ExprYn
  import opened ExprEquality
  import opened ExprReflexive

  /** (B || n) && (C || n), B && (C || n) and B && C. */
  function Three(b: Sym, c: Sym): (Expr, Expr, Expr) {
    var b', c' := Bin(Or, Symbol(b), Symbol(No)), Bin(Or, Symbol(c), Symbol(No));
    (Bin(And, b', c'), Bin(And, Symbol(b), c'), Bin(And, Symbol(b), Symbol(c)))
  }

  lemma LeafPair(op: Op, e1: Expr, e2: Expr)
    requires !IsOp(op, e1) && !IsOp(op, e2)
    ensures Cancel(op, e1, e2) ==
      if (e1 == e2 && IsYn(e1)) || !ExprEq(e1, e2) then Cancelled(e1, e2, 0)
      else Cancelled(Symbol(Unit(op)), Symbol(Unit(op)), 1)
  {
    hide ExprEq;
  }

  /** An operand meets first the left and then the right side of a chain. */
  lemma Meets(op: Op, x: Expr, l: Expr, r: Expr, x1: Expr, l': Expr, x2: Expr, r': Expr)
    requires !IsOp(op, x)
    requires Cancel(op, x, l).e1 == x1 && Cancel(op, x, l).e2 == l'
    requires Cancel(op, x1, r).e1 == x2 && Cancel(op, x1, r).e2 == r'
    ensures var c := Cancel(op, x, Bin(op, l, r)); c.e1 == x2 && c.e2 == Bin(op, l', r')
  {
    hide ExprEq;
  }

  /** The two sides of a chain, one after the other. */
  lemma Sides(op: Op, l: Expr, r: Expr, e: Expr, l': Expr, e1: Expr, r': Expr, e2: Expr)
    requires Cancel(op, l, e).e1 == l' && Cancel(op, l, e).e2 == e1
    requires Cancel(op, r, e1).e1 == r' && Cancel(op, r, e1).e2 == e2
    ensures var c := Cancel(op, Bin(op, l, r), e); c.e1 == Bin(op, l', r') && c.e2 == e2
  {
    hide ExprEq;
  }

  /** When a chain is accepted against another, by what cancelling leaves of both. */
  lemma Accepts(op: Op, e1: Expr, e2: Expr, l: Expr, r: Expr)
    requires IsOp(op, e1) && IsOp(op, e2) && IsOp(op, l) && IsOp(op, r)
    requires Cancel(op, e1, e2).e1 == l && Cancel(op, e1, e2).e2 == r
    ensures ExprEq(e1, e2) <==> EliminateYn(l).Symbol? && EliminateYn(l) == EliminateYn(r)
  {
    hide Cancel, EliminateYn;
    assert EliminateEq(e1, e2).e1 == EliminateYn(l);
  }

  /** The operands of this example without their y and n. */
  lemma Eliminated(s: Sym, t: Sym)
    requires s.Named? && t.Named?
    ensures var d, e := Bin(Or, Symbol(s), Symbol(No)), Bin(Or, Symbol(t), Symbol(No));
      && EliminateYn(d) == Symbol(s)
      && EliminateYn(Bin(And, d, Symbol(Yes))) == Symbol(s) == EliminateYn(Bin(And, Symbol(s), Symbol(Yes)))
      && EliminateYn(Bin(And, Symbol(Yes), d)) == Symbol(s) == EliminateYn(Bin(And, Symbol(Yes), Symbol(s)))
      && EliminateYn(Bin(And, Symbol(s), Symbol(t))) == Bin(And, Symbol(s), Symbol(t)) == EliminateYn(Bin(And, d, e))
  {
    assert EliminateYn(Bin(Or, Symbol(s), Symbol(No))) == Symbol(s);
    assert EliminateYn(Bin(Or, Symbol(t), Symbol(No))) == Symbol(t);
  }

  /** What the two operators leave of such operands when nothing, or one of them, cancels. */
  lemma Kept(op: Op, x: Expr, l: Expr, r: Expr)
    requires !IsOp(op, x) && !IsOp(op, l) && !IsOp(op, r)
    requires !ExprEq(x, l) || (x == l && IsYn(x))
    requires !ExprEq(x, r) || (x == r && IsYn(x))
    ensures Cancel(op, x, Bin(op, l, r)).e1 == x && Cancel(op, x, Bin(op, l, r)).e2 == Bin(op, l, r)
  {
    hide ExprEq, Cancel;
    LeafPair(op, x, l);
    LeafPair(op, x, r);
    Meets(op, x, l, r, x, l, x, r);
  }

  lemma DifferentPairs(b: Sym, c: Sym)
    requires b != c && b.Named? && c.Named?
    ensures !ExprEq(Bin(Or, Symbol(b), Symbol(No)), Bin(Or, Symbol(c), Symbol(No)))
  {
    var n, c' := Symbol(No), Bin(Or, Symbol(c), Symbol(No));
    Kept(Or, Symbol(b), Symbol(c), n);
    Kept(Or, n, Symbol(c), n);
    Sides(Or, Symbol(b), n, c', Symbol(b), c', n, c');
    Accepts(Or, Bin(Or, Symbol(b), n), c', Bin(Or, Symbol(b), n), c');
    Eliminated(b, c);
    Eliminated(c, b);
    hide ExprEq, Cancel, EliminateYn;
  }

  /** The first two accept each other, and the last two, but not the first and the last. */
  lemma NotTransitive(b: Sym, c: Sym)
    requires b != c && b.Named? && c.Named?
    ensures var (p, q, r) := Three(b, c); ExprEq(p, q) && ExprEq(q, r) && !ExprEq(r, p)
  {
    FirstTwo(b, c);
    LastTwo(b, c);
    Outer(b, c);
    hide ExprEq;
  }

  lemma FirstTwo(b: Sym, c: Sym)
    requires b != c && b.Named? && c.Named?
    ensures ExprEq(Three(b, c).0, Three(b, c).1)
  {
    var B, y, b', c' := Symbol(b), Symbol(Yes), Bin(Or, Symbol(b), Symbol(No)), Bin(Or, Symbol(c), Symbol(No));
    DifferentPairs(b, c);
    ExprEqReflexive(c');
    Kept(And, b', B, c');
    LeafPair(And, c', B);
    LeafPair(And, c', c');
    Meets(And, c', B, c', c', B, y, y);
    Sides(And, b', c', Bin(And, B, c'), b', Bin(And, B, c'), y, Bin(And, B, y));
    Accepts(And, Bin(And, b', c'), Bin(And, B, c'), Bin(And, b', y), Bin(And, B, y));
    Eliminated(b, c);
    hide ExprEq, Cancel, EliminateYn;
  }

  lemma LastTwo(b: Sym, c: Sym)
    requires b != c && b.Named? && c.Named?
    ensures ExprEq(Three(b, c).1, Three(b, c).2)
  {
    var B, C, y, c' := Symbol(b), Symbol(c), Symbol(Yes), Bin(Or, Symbol(c), Symbol(No));
    LeafPair(And, B, B);
    LeafPair(And, y, C);
    Meets(And, B, B, C, y, y, y, C);
    Kept(And, c', y, C);
    Sides(And, B, c', Bin(And, B, C), y, Bin(And, y, C), c', Bin(And, y, C));
    Accepts(And, Bin(And, B, c'), Bin(And, B, C), Bin(And, y, c'), Bin(And, y, C));
    Eliminated(c, b);
    hide ExprEq, Cancel, EliminateYn;
  }

  lemma Outer(b: Sym, c: Sym)
    requires b != c && b.Named? && c.Named?
    ensures !ExprEq(Three(b, c).2, Three(b, c).0)
  {
    var B, C, b', c' := Symbol(b), Symbol(c), Bin(Or, Symbol(b), Symbol(No)), Bin(Or, Symbol(c), Symbol(No));
    Kept(And, B, b', c');
    Kept(And, C, b', c');
    Sides(And, B, C, Bin(And, b', c'), B, Bin(And, b', c'), C, Bin(And, b', c'));
    Accepts(And, Bin(And, B, C), Bin(And, b', c'), Bin(And, B, C), Bin(And, b', c'));
    Eliminated(b, c);
    hide ExprEq, Cancel, EliminateYn;
  }

  /** So a disjunction of the three is not accepted against one of the same three in another order. */
  lemma OrderMatters(b: Sym, c: Sym)
    requires b != c && b.Named? && c.Named?
    ensures var (p, q, r) := Three(b, c); !ExprEq(Bin(Or, Bin(Or, q, p), r), Bin(Or, Bin(Or, r, q), p))
  {
    var (p, q, r) := Three(b, c);
    var n := Bin(Or, Symbol(No), Symbol(No));
    OrderCancels(b, c);
    Accepts(Or, Bin(Or, Bin(Or, q, p), r), Bin(Or, Bin(Or, r, q), p), Bin(Or, n, r), Bin(Or, n, p));
    Eliminated(b, c);
    hide Cancel, ExprEq;
    assert EliminateYn(n) == Symbol(No);
    assert EliminateYn(Bin(Or, n, r)) == r;
  }

  lemma OrderCancels(b: Sym, c: Sym)
    requires b != c && b.Named? && c.Named?
    ensures var (p, q, r) := Three(b, c); var n := Bin(Or, Symbol(No), Symbol(No));
      var left := Cancel(Or, Bin(Or, Bin(Or, q, p), r), Bin(Or, Bin(Or, r, q), p));
      left.e1 == Bin(Or, n, r) && left.e2 == Bin(Or, n, p)
  {
    var (p, q, r) := Three(b, c);
    var n := Symbol(No);
    NotTransitive(b, c);
    assert !ExprEq(n, p) && !ExprEq(n, q) && !ExprEq(p, n) && !ExprEq(r, n);
    hide ExprEq, Cancel, Three;
    var nn, nq, rq := Bin(Or, n, n), Bin(Or, n, q), Bin(Or, r, q);
    LeafPair(Or, q, r);
    LeafPair(Or, n, q);
    Meets(Or, q, r, q, n, n, n, q);
    LeafPair(Or, n, p);
    Meets(Or, q, rq, p, n, nq, n, p);
    LeafPair(Or, p, n);
    LeafPair(Or, p, q);
    Meets(Or, p, n, q, p, n, n, n);
    Meets(Or, p, nq, p, n, nn, n, p);
    Sides(Or, q, p, Bin(Or, rq, p), n, Bin(Or, nq, p), n, Bin(Or, nn, p));
    Kept(Or, r, n, n);
    LeafPair(Or, r, p);
    Meets(Or, r, nn, p, r, nn, r, p);
    Sides(Or, Bin(Or, q, p), r, Bin(Or, rq, p), nn, Bin(Or, nn, p), r, Bin(Or, nn, p));
  }
}
