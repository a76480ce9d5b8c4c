/**
 * The rotation primitive shared by insert and delete rebalancing
 * (`ngx_rbtree_left_rotate` and `ngx_rbtree_right_rotate`, written once
 * here for both sides).
 */
module Rotation {
  import opened Keys
  import opened Layout

  /**
   * What the rotation routines themselves rely on: `x` has a child `y` on
   * the other side, and `x`, `y`, `y`'s near child `b` and `x`'s parent `p`
   * are distinct records, `p` having `x` as a child.
   */
  ghost predicate RotateLocal(s: State, d: Side, x: Handle)
  {
    Sized(s) && x < |s.nodes|
    && var y := Child(s.nodes[x], Flip(d));
    y < |s.nodes| && y != s.sentinel && y != x
    && var b := Child(s.nodes[y], d);
    b < |s.nodes| && b != x && b != y
    && var p := s.nodes[x].parent;
    (x != s.root ==> p < |s.nodes| && p != x && p != y && p != b
                     && (s.nodes[p].left == x || s.nodes[p].right == x))
  }

  /**
   * What a rotation at `x` towards side `d` needs for the tree to stay a
   * tree: `x` has a child on the other side, and `x`, that child and `x`'s
   * parent are well formed.
   */
  ghost predicate Rotatable(s: State, d: Side, x: Handle)
  {
    Shape(s) && Linked(s, x) && NodeOk(s, x) && Child(s.nodes[x], Flip(d)) != s.sentinel
    && NodeOk(s, Child(s.nodes[x], Flip(d)))
    && (x != s.root ==> NodeOk(s, s.nodes[x].parent))
    && RotateLocal(s, d, x)
  }

  /** Every linked node with a child on the far side can be rotated. */
  lemma CanRotate(s: State, d: Side, x: Handle)
    requires Shape(s) && Linked(s, x) && Child(s.nodes[x], Flip(d)) != s.sentinel
    ensures Rotatable(s, d, x)
  {
    ChildOf(s, x, Flip(d));
    assert NodeOk(s, x);
    if x != s.root {
      assert UpOk(s, x);
      assert NodeOk(s, s.nodes[x].parent);
    }
  }

  /**
   * `r` is `s` after rotating `x` towards side `d`: its child on the other
   * side, `y`, takes its place and `y`'s `d`-side subtree `b` moves under
   * `x`. Only the records of `x`, `y`, `b` and `x`'s parent `p` change, and
   * of the ghost bookkeeping only the ranges of `x` and `y`.
   */
  ghost predicate RotationOf(s: State, d: Side, x: Handle, r: State)
    requires RotateLocal(s, d, x)
  {
    var y := Child(s.nodes[x], Flip(d));
    var b := Child(s.nodes[y], d);
    var p := s.nodes[x].parent;
    |r.nodes| == |s.nodes| && r.order == s.order && r.pos == s.pos && r.bh == s.bh
    && r.sentinel == s.sentinel && r.root == (if x == s.root then y else s.root)
    && |r.lo| == |s.lo| && |r.hi| == |s.hi|
    && r.lo[y] == s.lo[x] && r.hi[y] == s.hi[x]
    && r.lo[x] == (if d == Left then s.lo[x] else s.pos[y] + 1)
    && r.hi[x] == (if d == Left then s.pos[y] else s.hi[x])
    && (forall n :: 0 <= n < |s.nodes| && n != x && n != y ==> r.lo[n] == s.lo[n] && r.hi[n] == s.hi[n])
    && r.nodes[x] == WithChild(s.nodes[x], Flip(d), b).(parent := y)
    && r.nodes[y] == WithChild(s.nodes[y], d, x).(parent := p)
    && (b != s.sentinel ==> r.nodes[b] == s.nodes[b].(parent := x))
    && (x != s.root ==> r.nodes[p] == WithChild(s.nodes[p], if s.nodes[p].left == x then Left else Right, y))
    && (forall n {:trigger SameNode(s, r, n)} ::
          0 <= n < |s.nodes| && n != x && n != y && (n != b || b == s.sentinel) && (x == s.root || n != p) ==>
          SameNode(s, r, n))
  }

  /**
   * The state the rotation routines leave, written as their sequence of
   * writes: `x`'s far slot to `b`, `b` up to `x`, `y` up to `p`, `p`'s slot
   * (or the root) to `y`, `y`'s near slot to `x`, `x` up to `y`.
   */
  ghost function Rotated(s: State, d: Side, x: Handle): State
    requires RotateLocal(s, d, x)
  {
    var y := Child(s.nodes[x], Flip(d));
    var b := Child(s.nodes[y], d);
    var p := s.nodes[x].parent;
    var n1 := s.nodes[x := WithChild(s.nodes[x], Flip(d), b)];
    var n2 := if b != s.sentinel then n1[b := n1[b].(parent := x)] else n1;
    var n3 := n2[y := n2[y].(parent := p)];
    var n4 := if x == s.root then n3
              else if x == n3[p].left then n3[p := n3[p].(left := y)]
              else n3[p := n3[p].(right := y)];
    var n5 := n4[y := WithChild(n4[y], d, x)];
    var lo := s.lo[y := s.lo[x]];
    var hi := s.hi[y := s.hi[x]];
    s.(nodes := n5[x := n5[x].(parent := y)], root := if x == s.root then y else s.root,
       lo := if d == Left then lo else lo[x := s.pos[y] + 1],
       hi := if d == Left then hi[x := s.pos[y]] else hi)
  }

  /** Those writes are the rotation `RotationOf` describes. */
  lemma RotatedIsRotation(s: State, d: Side, x: Handle)
    requires RotateLocal(s, d, x)
    ensures RotationOf(s, d, x, Rotated(s, d, x))
  {
  }

  /** The nodes a rotation touches are distinct and linked. */
  lemma RotationParts(s: State, d: Side, x: Handle)
    requires Rotatable(s, d, x)
    ensures var y := Child(s.nodes[x], Flip(d));
      Linked(s, y) && y != x && s.nodes[y].parent == x
      && var b := Child(s.nodes[y], d);
      var p := s.nodes[x].parent;
      b != x && b != y && b < |s.nodes|
      && (b != s.sentinel ==> Linked(s, b) && s.nodes[b].parent == y)
      && (x != s.root ==> Linked(s, p) && p != x && p != y && p != b
                          && (s.nodes[p].left == x || s.nodes[p].right == x))
  {
  }

  /** A linked node other than `x`, `y` and `b` keeps its range and parent link. */
  lemma RotatedKept(s: State, d: Side, x: Handle, r: State, c: Handle)
    requires Rotatable(s, d, x) && RotationOf(s, d, x, r) && Linked(s, c)
    requires var y := Child(s.nodes[x], Flip(d));
      c != x && c != y && c != Child(s.nodes[y], d)
    ensures Sized(r) && Kept(s, r, c)
  {
    if x == s.root || c != s.nodes[x].parent {
      assert SameNode(s, r, c);
    }
  }

  /** The parent of a node a rotation did not touch still has it as a child. */
  lemma RotatedParentLink(s: State, d: Side, x: Handle, r: State, n: Handle)
    requires Rotatable(s, d, x) && RotationOf(s, d, x, r) && Linked(s, n) && n != s.root
    requires var y := Child(s.nodes[x], Flip(d));
      n != x && n != y && n != Child(s.nodes[y], d) && (x == s.root || n != s.nodes[x].parent)
    ensures var q := s.nodes[n].parent;
      q < |s.nodes| && Linked(r, q)
      && (s.nodes[q].left == n ==> r.nodes[q].left == n) && (s.nodes[q].right == n ==> r.nodes[q].right == n)
  {
    RotationParts(s, d, x);
    assert NodeOk(s, n) && UpOk(s, n);
    var q := s.nodes[n].parent;
    var y := Child(s.nodes[x], Flip(d));
    if q != x && q != y && q != Child(s.nodes[y], d) && (x == s.root || q != s.nodes[x].parent) {
      assert SameNode(s, r, q);
    }
  }

  /** After a rotation, a node it did not touch still satisfies the shape rules. */
  lemma RotatedUntouched(s: State, d: Side, x: Handle, r: State, n: Handle)
    requires Rotatable(s, d, x) && RotationOf(s, d, x, r) && Linked(s, n)
    requires var y := Child(s.nodes[x], Flip(d));
      n != x && n != y && n != Child(s.nodes[y], d) && (x == s.root || n != s.nodes[x].parent)
    ensures Sized(r) && NodeOk(r, n)
  {
    RotationParts(s, d, x);
    RootNotChild(s, n);
    assert NodeOk(s, n);
    var nd := s.nodes[n];
    RotatedKept(s, d, x, r, n);
    if nd.left != s.sentinel {
      RotatedKept(s, d, x, r, nd.left);
    }
    if nd.right != s.sentinel {
      RotatedKept(s, d, x, r, nd.right);
    }
    if n != s.root {
      RotatedParentLink(s, d, x, r, n);
    }
    assert SameNode(s, r, n);
    KeptNodeOk(s, r, n);
  }

  /** After a rotation, `x` satisfies the shape rules. */
  lemma RotatedX(s: State, d: Side, x: Handle, r: State)
    requires Rotatable(s, d, x) && RotationOf(s, d, x, r)
    ensures Sized(r) && NodeOk(r, x)
  {
    RotationParts(s, d, x);
    var y := Child(s.nodes[x], Flip(d));
    var a := Child(s.nodes[x], d);
    var b := Child(s.nodes[y], d);
    if a != s.sentinel {
      ChildOf(s, x, d);
      RotatedKept(s, d, x, r, a);
    }
    if b != s.sentinel {
      ChildOf(s, y, d);
    }
  }

  /** After a rotation, `y` satisfies the shape rules. */
  lemma RotatedY(s: State, d: Side, x: Handle, r: State)
    requires Rotatable(s, d, x) && RotationOf(s, d, x, r)
    ensures Sized(r) && NodeOk(r, Child(s.nodes[x], Flip(d)))
  {
    RotationParts(s, d, x);
    var y := Child(s.nodes[x], Flip(d));
    var c := Child(s.nodes[y], Flip(d));
    if c != s.sentinel {
      ChildOf(s, y, Flip(d));
      RotatedKept(s, d, x, r, c);
    }
  }

  /** After a rotation, the moved subtree's root satisfies the shape rules. */
  lemma RotatedB(s: State, d: Side, x: Handle, r: State)
    requires Rotatable(s, d, x) && RotationOf(s, d, x, r)
    requires Child(s.nodes[Child(s.nodes[x], Flip(d))], d) != s.sentinel
    ensures
      Sized(r) && NodeOk(r, Child(s.nodes[Child(s.nodes[x], Flip(d))], d))
  {
    RotationParts(s, d, x);
    var y := Child(s.nodes[x], Flip(d));
    var b := Child(s.nodes[y], d);
    ChildOf(s, y, d);
    assert NodeOk(s, b);
    if s.nodes[b].left != s.sentinel {
      ChildOf(s, b, Left);
      RotatedKept(s, d, x, r, s.nodes[b].left);
    }
    if s.nodes[b].right != s.sentinel {
      ChildOf(s, b, Right);
      RotatedKept(s, d, x, r, s.nodes[b].right);
    }
  }

  /** After a rotation, `x`'s old parent still hangs below its own parent. */
  lemma RotatedPUp(s: State, d: Side, x: Handle, r: State)
    requires Rotatable(s, d, x) && RotationOf(s, d, x, r) && x != s.root
    ensures Sized(r) && (s.nodes[x].parent != r.root ==> UpOk(r, s.nodes[x].parent))
  {
    RotationParts(s, d, x);
    var p := s.nodes[x].parent;
    if p != s.root {
      var y := Child(s.nodes[x], Flip(d));
      var b := Child(s.nodes[y], d);
      ParentWider(s, x);
      ParentWider(s, y);
      ParentWider(s, p);
      if b != s.sentinel {
        ParentWider(s, b);
      }
      assert UpOk(s, p);
      assert SameNode(s, r, s.nodes[p].parent);
    }
  }

  /** After a rotation, `x`'s old parent has `y` where it had `x`. */
  lemma RotatedPSlots(s: State, d: Side, x: Handle, r: State)
    requires Rotatable(s, d, x) && RotationOf(s, d, x, r) && x != s.root
    ensures Sized(r)
    ensures var p := s.nodes[x].parent;
      SlotOk(r, r.nodes[p].left, r.lo[p], r.pos[p], p)
      && SlotOk(r, r.nodes[p].right, r.pos[p] + 1, r.hi[p], p)
  {
    RotationParts(s, d, x);
    var y := Child(s.nodes[x], Flip(d));
    var b := Child(s.nodes[y], d);
    var p := s.nodes[x].parent;
    var e := if s.nodes[p].left == x then Left else Right;
    var o := Child(s.nodes[p], Flip(e));
    ChildOf(s, p, e);
    assert r.lo[p] == s.lo[p] && r.hi[p] == s.hi[p];
    if o != s.sentinel {
      ChildOf(s, p, Flip(e));
      assert o != x && o != y && o != b;
      assert SameNode(s, r, o);
    }
  }

  /** After a rotation, `x`'s old parent satisfies the shape rules. */
  lemma RotatedP(s: State, d: Side, x: Handle, r: State)
    requires Rotatable(s, d, x) && RotationOf(s, d, x, r) && x != s.root
    ensures Sized(r) && NodeOk(r, s.nodes[x].parent)
  {
    RotationParts(s, d, x);
    RotatedPUp(s, d, x, r);
    RotatedPSlots(s, d, x, r);
    var p := s.nodes[x].parent;
    assert NodeOk(s, p);
    assert r.lo[p] == s.lo[p] && r.hi[p] == s.hi[p];
  }

  /** A rotation keeps the links a binary tree with the same in-order sequence. */
  lemma RotatedShape(s: State, d: Side, x: Handle, r: State)
    requires Rotatable(s, d, x) && RotationOf(s, d, x, r)
    ensures Shape(r)
  {
    RotationParts(s, d, x);
    RotatedX(s, d, x, r);
    RotatedY(s, d, x, r);
    var y := Child(s.nodes[x], Flip(d));
    var b := Child(s.nodes[y], d);
    if b != s.sentinel {
      RotatedB(s, d, x, r);
    }
    if x != s.root {
      RotatedP(s, d, x, r);
    }
    forall n | Linked(r, n) ensures NodeOk(r, n) {
      assert Linked(s, n);
      if n != x && n != y && n != b && (x == s.root || n != s.nodes[x].parent) {
        RotatedUntouched(s, d, x, r, n);
      }
    }
    assert x == s.root ==> NodeOk(s, x);
  }

  /** A rotation writes only records of the tree: no data byte and no record outside it changes. */
  lemma RotationFramed(s: State, d: Side, x: Handle, r: State)
    requires Rotatable(s, d, x) && RotationOf(s, d, x, r)
    ensures Framed(s, r)
  {
    var y := Child(s.nodes[x], Flip(d));
    var b := Child(s.nodes[y], d);
    ChildOf(s, x, Flip(d));
    LinkedIsIn(s, x);
    LinkedIsIn(s, y);
    if b != s.sentinel {
      ChildOf(s, y, d);
      LinkedIsIn(s, b);
    }
    if x != s.root {
      assert UpOk(s, x);
      LinkedIsIn(s, s.nodes[x].parent);
    }
    RotationData(s, d, x, r);
    forall m | 0 <= m < |s.nodes| && m != s.sentinel && m !in s.order
      ensures r.nodes[m] == s.nodes[m]
    {
      assert SameNode(s, r, m);
    }
  }

  /** A rotation keeps every data byte. */
  lemma RotationData(s: State, d: Side, x: Handle, r: State)
    requires RotateLocal(s, d, x) && RotationOf(s, d, x, r)
    ensures forall m :: 0 <= m < |s.nodes| ==> r.nodes[m].data == s.nodes[m].data
  {
    forall m | 0 <= m < |s.nodes|
      ensures r.nodes[m].data == s.nodes[m].data
    {
      assert SameNode(s, r, m) || m == x || m == Child(s.nodes[x], Flip(d))
        || m == Child(s.nodes[Child(s.nodes[x], Flip(d))], d) || m == s.nodes[x].parent;
    }
  }

  /** A rotation changes links only: every node keeps its key and colour. */
  lemma RotatedKeysColours(s: State, d: Side, x: Handle, r: State)
    requires Rotatable(s, d, x) && RotationOf(s, d, x, r)
    ensures forall m :: 0 <= m < |s.nodes| ==>
      r.nodes[m].key == s.nodes[m].key && r.nodes[m].color == s.nodes[m].color
  {
    RotationParts(s, d, x);
    forall m | 0 <= m < |s.nodes|
      ensures r.nodes[m].key == s.nodes[m].key && r.nodes[m].color == s.nodes[m].color
    {
      assert SameNode(s, r, m) || m == x || m == Child(s.nodes[x], Flip(d))
        || m == Child(s.nodes[Child(s.nodes[x], Flip(d))], d) || m == s.nodes[x].parent;
    }
  }

  /**
   * The links after a rotation, record by record: `x` holds its near
   * child `a` and `b`, `y` holds `x` and its far child `c`, `x`'s parent `q`
   * holds `y` where it held `x`, and every other record keeps its children.
   */
  lemma RotationLinks(s: State, d: Side, x: Handle, r: State)
    requires Rotatable(s, d, x) && RotationOf(s, d, x, r)
    ensures var y := Child(s.nodes[x], Flip(d));
      var b := Child(s.nodes[y], d);
      var q := s.nodes[x].parent;
      |r.nodes| == |s.nodes| && r.root == (if x == s.root then y else s.root)
      && Child(r.nodes[x], d) == Child(s.nodes[x], d) && Child(r.nodes[x], Flip(d)) == b
      && Child(r.nodes[y], d) == x && Child(r.nodes[y], Flip(d)) == Child(s.nodes[y], Flip(d))
      && r.nodes[x].parent == y && r.nodes[y].parent == q
      && (x != s.root ==>
            q < |s.nodes| && Child(r.nodes[q], SideOf(s.nodes[q], x)) == y
            && Child(r.nodes[q], Flip(SideOf(s.nodes[q], x))) == Child(s.nodes[q], Flip(SideOf(s.nodes[q], x))))
      && (forall m :: 0 <= m < |s.nodes| && m != x && m != y && (x == s.root || m != q) ==>
            r.nodes[m].left == s.nodes[m].left && r.nodes[m].right == s.nodes[m].right)
      && (forall m :: 0 <= m < |s.nodes| && m != x && m != y && (m != b || b == s.sentinel) ==>
            r.nodes[m].parent == s.nodes[m].parent)
  {
    RotationParts(s, d, x);
    var y := Child(s.nodes[x], Flip(d));
    var b := Child(s.nodes[y], d);
    var q := s.nodes[x].parent;
    forall m | 0 <= m < |s.nodes| && m != x && m != y && (x == s.root || m != q)
      ensures r.nodes[m].left == s.nodes[m].left && r.nodes[m].right == s.nodes[m].right
    {
      if m != b || b == s.sentinel {
        assert SameNode(s, r, m);
      }
    }
    forall m | 0 <= m < |s.nodes| && m != x && m != y && (m != b || b == s.sentinel)
      ensures r.nodes[m].parent == s.nodes[m].parent
    {
      if x == s.root || m != q {
        assert SameNode(s, r, m);
      }
    }
  }
}
