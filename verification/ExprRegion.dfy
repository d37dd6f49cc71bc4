/**
 * Slots inside one expression tree. The duplicate elimination passes walk two
 * "struct expr **" cursors over the same tree, one possibly inside the other;
 * a cursor is a path from the root, so writing through one is seen by both.
 * A region is the top part of a tree that consists of one operator only.
 */
module ExprRegion {
  import opened KconfigExpr
  import opened ExprEquality

  datatype Side = L | R

  type Slot = seq<Side>

  /** The slot lies in e and every node above it is an op. */
  predicate InRegion(op: Op, e: Expr, p: Slot) {
    p == [] || (IsOp(op, e) && InRegion(op, Child(e, p[0]), p[1..]))
  }

  function Child(e: Expr, s: Side): Expr
    requires e.Bin?
  {
    if s == L then e.left else e.right
  }

  function At(op: Op, e: Expr, p: Slot): (r: Expr)
    requires InRegion(op, e, p)
    ensures p != [] ==> Size(r) < Size(e)
  {
    if p == [] then e else At(op, Child(e, p[0]), p[1..])
  }

  /** The tree after storing x through the slot. */
  function Put(op: Op, e: Expr, p: Slot, x: Expr): Expr
    requires InRegion(op, e, p)
  {
    if p == [] then x
    else if p[0] == L then Bin(op, Put(op, e.left, p[1..], x), e.right)
    else Bin(op, e.left, Put(op, e.right, p[1..], x))
  }

  /** Leaves of the region: slots whose node is not an op. */
  predicate RegionLeaf(op: Op, e: Expr, p: Slot) {
    InRegion(op, e, p) && !IsOp(op, At(op, e, p))
  }

  /** Both trees have the same op nodes at the top. */
  predicate SameRegion(op: Op, a: Expr, b: Expr) {
    IsOp(op, a) == IsOp(op, b) &&
    (IsOp(op, a) ==> SameRegion(op, a.left, b.left) && SameRegion(op, a.right, b.right))
  }

  lemma {:induction false} SameRegionRefl(op: Op, a: Expr)
    ensures SameRegion(op, a, a)
  {
    if IsOp(op, a) { SameRegionRefl(op, a.left); SameRegionRefl(op, a.right); }
  }

  lemma {:induction false} SameRegionTrans(op: Op, a: Expr, b: Expr, c: Expr)
    requires SameRegion(op, a, b) && SameRegion(op, b, c)
    ensures SameRegion(op, a, c)
  {
    if IsOp(op, a) {
      SameRegionTrans(op, a.left, b.left, c.left);
      SameRegionTrans(op, a.right, b.right, c.right);
    }
  }

  /** Number of op nodes in the region. */
  function RegionSize(op: Op, e: Expr): nat {
    if IsOp(op, e) then 1 + RegionSize(op, e.left) + RegionSize(op, e.right) else 0
  }

  lemma {:induction false} SameRegionSlots(op: Op, a: Expr, b: Expr, p: Slot)
    requires SameRegion(op, a, b) && InRegion(op, a, p)
    ensures InRegion(op, b, p)
    ensures SameRegion(op, At(op, a, p), At(op, b, p))
    ensures RegionSize(op, At(op, a, p)) == RegionSize(op, At(op, b, p))
  {
    if p == [] {
      SameRegionSize(op, a, b);
    } else {
      SameRegionSlots(op, Child(a, p[0]), Child(b, p[0]), p[1..]);
    }
  }

  lemma {:induction false} SameRegionSize(op: Op, a: Expr, b: Expr)
    requires SameRegion(op, a, b)
    ensures RegionSize(op, a) == RegionSize(op, b)
  {
    if IsOp(op, a) {
      SameRegionSize(op, a.left, b.left);
      SameRegionSize(op, a.right, b.right);
    }
  }

  lemma {:induction false} ChildSlot(op: Op, e: Expr, p: Slot, s: Side)
    requires InRegion(op, e, p) && IsOp(op, At(op, e, p))
    ensures InRegion(op, e, p + [s])
    ensures At(op, e, p + [s]) == Child(At(op, e, p), s)
  {
    if p != [] {
      ChildSlot(op, Child(e, p[0]), p[1..], s);
      assert (p + [s])[1..] == p[1..] + [s];
    }
  }

  lemma {:induction false} PutLeaf(op: Op, e: Expr, p: Slot, x: Expr)
    requires RegionLeaf(op, e, p) && !IsOp(op, x)
    ensures SameRegion(op, e, Put(op, e, p, x))
    ensures InRegion(op, Put(op, e, p, x), p)
    ensures At(op, Put(op, e, p, x), p) == x
  {
    if p == [] {
    } else if p[0] == L {
      PutLeaf(op, e.left, p[1..], x);
      SameRegionRefl(op, e.right);
    } else {
      PutLeaf(op, e.right, p[1..], x);
      SameRegionRefl(op, e.left);
    }
  }

  /** A store through one leaf is not seen through another. */
  lemma {:induction false} PutOther(op: Op, e: Expr, p: Slot, x: Expr, q: Slot)
    requires RegionLeaf(op, e, p) && RegionLeaf(op, e, q) && p != q && !IsOp(op, x)
    ensures InRegion(op, Put(op, e, p, x), q)
    ensures At(op, Put(op, e, p, x), q) == At(op, e, q)
  {
    if p != [] && q != [] && p[0] == q[0] {
      PutOther(op, Child(e, p[0]), p[1..], x, q[1..]);
    }
  }

  /** The value of the region without one slot; the unit when nothing else is there. */
  ghost function Rest(op: Op, e: Expr, p: Slot, env: Env): Tri
    requires InRegion(op, e, p)
  {
    if p == [] then (if op == And then YES else NO)
    else if p[0] == L then Apply(op, Rest(op, e.left, p[1..], env), Val(e.right, env))
    else Apply(op, Val(e.left, env), Rest(op, e.right, p[1..], env))
  }

  lemma {:induction false} PutValue(op: Op, e: Expr, p: Slot, x: Expr, env: Env)
    requires InRegion(op, e, p)
    ensures Val(Put(op, e, p, x), env) == Apply(op, Rest(op, e, p, env), Val(x, env))
    ensures Val(e, env) == Apply(op, Rest(op, e, p, env), Val(At(op, e, p), env))
  {
    if p != [] {
      var c := Child(e, p[0]);
      PutValue(op, c, p[1..], x, env);
      var rest, other := Rest(op, c, p[1..], env), Val(Child(e, if p[0] == L then R else L), env);
      PutStep(op, rest, other, Val(x, env));
      PutStep(op, rest, other, Val(At(op, e, p), env));
    }
  }

  lemma PutStep(op: Op, rest: Tri, other: Tri, v: Tri)
    ensures Apply(op, Apply(op, rest, v), other) == Apply(op, Apply(op, rest, other), v)
    ensures Apply(op, other, Apply(op, rest, v)) == Apply(op, Apply(op, other, rest), v)
  {
  }

  /**
   * Replacing two different leaves keeps the region's value as long as the two
   * taken together keep theirs.
   */
  lemma {:induction false} PutTwoValue(op: Op, e: Expr, p: Slot, x: Expr, q: Slot, y: Expr, env: Env)
    requires RegionLeaf(op, e, p) && RegionLeaf(op, e, q) && p != q && !IsOp(op, x)
    requires InRegion(op, Put(op, e, p, x), q)
    requires Apply(op, Val(At(op, e, p), env), Val(At(op, e, q), env)) == Apply(op, Val(x, env), Val(y, env))
    ensures Val(Put(op, Put(op, e, p, x), q, y), env) == Val(e, env)
  {
    if p[0] == q[0] {
      PutTwoValue(op, Child(e, p[0]), p[1..], x, q[1..], y, env);
    } else if p[0] == L {
      PutAcross(op, e, p[1..], x, q[1..], y, env);
    } else {
      PutAcross(op, e, q[1..], y, p[1..], x, env);
    }
  }

  /** One leaf on the left and one on the right. */
  lemma PutAcross(op: Op, e: Expr, p: Slot, x: Expr, q: Slot, y: Expr, env: Env)
    requires IsOp(op, e) && InRegion(op, e.left, p) && InRegion(op, e.right, q)
    requires Apply(op, Val(At(op, e.left, p), env), Val(At(op, e.right, q), env)) == Apply(op, Val(x, env), Val(y, env))
    ensures Val(Bin(op, Put(op, e.left, p, x), Put(op, e.right, q, y)), env) == Val(e, env)
  {
    hide Put, At, Rest, InRegion;
    PutValue(op, e.left, p, x, env);
    PutValue(op, e.right, q, y, env);
    RegroupTwo(op, Rest(op, e.left, p, env), Val(At(op, e.left, p), env),
               Rest(op, e.right, q, env), Val(At(op, e.right, q), env), Val(x, env), Val(y, env));
  }

  lemma RegroupTwo(op: Op, c: Tri, a: Tri, d: Tri, b: Tri, x: Tri, y: Tri)
    requires Apply(op, a, b) == Apply(op, x, y)
    ensures Apply(op, Apply(op, c, a), Apply(op, d, b)) == Apply(op, Apply(op, c, x), Apply(op, d, y))
  {
    ApplyRegroup(op, c, a, d, b);
    ApplyRegroup(op, c, x, d, y);
  }
}
