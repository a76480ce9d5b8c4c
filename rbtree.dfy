/**
 * The tree object of `ngx_rbtree.h` and its operations: `ngx_rbtree_init`,
 * the colour macros, the rotations, placement by policy, rebalancing
 * insert and delete, `ngx_rbtree_min` and `ngx_rbtree_next`.
 *
 * The node records the caller owns are the arena `nodes`; a pointer is a
 * handle into it. The ghost fields are the bookkeeping of `Layout` and are
 * updated alongside the links.
 */
module Rbtree {
  import opened Keys
  import opened Layout
  import opened Colours
  import opened Rotation
  import opened InsertFixup
  import opened Placement
  import opened DeleteFixup
  import opened DeleteSplice
  import opened DeleteRoot
  import opened Deletion

  datatype Option<T> = None | Some(value: T)

  class Tree {
    var nodes: seq<Node>
    var root: Handle
    var sentinel: Handle
    /** The placement routine the tree was initialised with. */
    var insert: Policy
    ghost var order: seq<Handle>
    ghost var pos: seq<int>
    ghost var lo: seq<int>
    ghost var hi: seq<int>
    ghost var bh: seq<int>

    ghost function St(): State
      reads this
    {
      State(nodes, root, sentinel, order, pos, lo, hi, bh)
    }

    /** A red-black tree whose in-order keys are sorted by the tree's policy. */
    ghost predicate Valid()
      reads this
    {
      RbInvariant(St(), insert)
    }

    /**
     * `ngx_rbtree_init`: the sentinel is painted black and becomes the
     * root, so the tree is empty; no other record is touched.
     */
    constructor Init(arena: seq<Node>, s: Handle, i: Policy)
      requires s < |arena|
      ensures nodes == arena[s := arena[s].(color := BlackByte)]
      ensures root == s && sentinel == s && insert == i && order == []
      ensures Valid()
    {
      nodes := arena[s := arena[s].(color := BlackByte)];
      root := s;
      sentinel := s;
      insert := i;
      order := [];
      pos := seq(|arena|, _ => 0);
      lo := seq(|arena|, _ => 0);
      hi := seq(|arena|, _ => 0);
      bh := seq(|arena|, _ => 0);
    }

    /** `ngx_rbt_red`. */
    method SetRed(n: Handle)
      requires n < |nodes|
      modifies this
      ensures St() == Paint(old(St()), n, RedByte) && insert == old(insert)
    {
      nodes := nodes[n := nodes[n].(color := RedByte)];
    }

    /** `ngx_rbt_black`. */
    method SetBlack(n: Handle)
      requires n < |nodes|
      modifies this
      ensures St() == Paint(old(St()), n, BlackByte) && insert == old(insert)
    {
      nodes := nodes[n := nodes[n].(color := BlackByte)];
    }

    /** `ngx_rbt_copy_color(n1, n2)`: `n1` takes `n2`'s colour byte. */
    method CopyColor(n1: Handle, n2: Handle)
      requires n1 < |nodes| && n2 < |nodes|
      modifies this
      ensures St() == Paint(old(St()), n1, old(nodes[n2].color)) && insert == old(insert)
    {
      nodes := nodes[n1 := nodes[n1].(color := nodes[n2].color)];
    }

    /**
     * `ngx_rbtree_left_rotate` (side `Left`) and `ngx_rbtree_right_rotate`
     * (side `Right`): the child `temp` of `x` on the other side takes `x`'s
     * place and `x` becomes `temp`'s child on side `d`.
     */
    method Rotate(d: Side, x: Handle)
      requires RotateLocal(St(), d, x)
      modifies this
      ensures RotationOf(old(St()), d, x, St()) && insert == old(insert)
    {
      ghost var s := St();
      var ns := nodes;
      var temp := Child(ns[x], Flip(d));
      var b := Child(ns[temp], d);
      var p := ns[x].parent;
      ns := ns[x := WithChild(ns[x], Flip(d), b)];
      if b != sentinel {
        ns := ns[b := ns[b].(parent := x)];
      }
      ns := ns[temp := ns[temp].(parent := p)];
      if x == root {
        root := temp;
      } else if x == ns[p].left {
        ns := ns[p := ns[p].(left := temp)];
      } else {
        ns := ns[p := ns[p].(right := temp)];
      }
      ns := ns[temp := WithChild(ns[temp], d, x)];
      ns := ns[x := ns[x].(parent := temp)];
      nodes := ns;
      lo, hi := lo[temp := lo[x]], hi[temp := hi[x]];
      if d == Left {
        hi := hi[x := pos[temp]];
      } else {
        lo := lo[x := pos[temp] + 1];
      }
      assert St() == Rotated(s, d, x);
      RotatedIsRotation(s, d, x);
    }

    /**
     * `ngx_rbtree_insert_value` (policy `InsertValue`) and
     * `ngx_rbtree_insert_timer_value` (policy `InsertTimerValue`): descend
     * from the root, left when the new key precedes the current node's key
     * and right otherwise, and hang `node` as a red leaf in the empty slot
     * reached. The slot is the one where the key fits the in-order sequence.
     */
    method Place(node: Handle, ghost base: Key) returns (ghost temp: Handle, ghost side: Side)
      requires Shape(St()) && Sorted(St(), insert) && root != sentinel
      requires node < |nodes| && node != sentinel && !Linked(St(), node)
      requires AllInWindow(St(), insert, base) && InWindow(insert, base, nodes[node].key)
      modifies this
      ensures PlacedOf(old(St()), insert, temp, side, node, St()) && insert == old(insert)
    {
      ghost var s := St();
      var k := nodes[node].key;
      var t := root;
      var dir := Left;
      BracketRoot(s, insert, k);
      while true
        modifies {}
        invariant Bracket(s, insert, k, t)
        decreases s.hi[t] - s.lo[t]
      {
        var d := if Precedes(insert, k, nodes[t].key) then Left else Right;
        Descend(s, insert, base, k, t, d);
        if Child(nodes[t], d) == sentinel {
          dir := d;
          break;
        }
        t := Child(nodes[t], d);
      }
      temp, side := t, dir;
      Hang(t, dir, node);
    }

    /**
     * The end of both placement routines: the empty slot on side `side` of
     * `temp` takes `node`, which becomes a red leaf with parent `temp`.
     */
    method Hang(temp: Handle, side: Side, node: Handle)
      requires AttachLocal(St(), temp, node)
      modifies this
      ensures AttachedOf(old(St()), temp, side, node, St()) && insert == old(insert)
    {
      ghost var r := Attached(St(), temp, side, node);
      AttachedIsAttach(St(), temp, side, node);
      var ns := nodes;
      ns := ns[temp := WithChild(ns[temp], side, node)];
      ns := ns[node := ns[node].(parent := temp, left := sentinel, right := sentinel, color := RedByte)];
      nodes := ns;
      order, pos, lo, hi, bh := r.order, r.pos, r.lo, r.hi, r.bh;
      assert St() == r;
    }

    /**
     * `ngx_rbtree_insert`: link the unlinked record `node` into the tree.
     * An empty tree gets `node` as its black root; otherwise the tree's
     * placement routine hangs it as a red leaf and the rebalancing loop
     * recolours and rotates until no red node has a red parent. The new
     * in-order sequence is the old one with `node` inserted at `at`.
     */
    method Insert(node: Handle, ghost base: Key) returns (ghost at: int)
      requires Valid() && node < |nodes| && node != sentinel && !Linked(St(), node)
      requires AllInWindow(St(), insert, base) && InWindow(insert, base, nodes[node].key)
      modifies this
      ensures InsertedOf(old(St()), insert, base, node, at, St()) && insert == old(insert)
    {
      ghost var s0 := St();
      if root == sentinel {
        nodes := nodes[node := nodes[node].(left := sentinel, right := sentinel, parent := sentinel, color := BlackByte)];
        root := node;
        order, pos, lo, hi, bh := [node], pos[node := 0], lo[node := 0], hi[node := 1], bh[node := 0];
        FirstInserted(s0, insert, base, node, St());
        at := 0;
        return;
      }
      ghost var temp, side := Place(node, base);
      ghost var s1 := St();
      at := Gap(s0, temp, side);
      PlacedTree(s0, insert, base, temp, side, node, s1);
      Rebalance(node, base);
      PlacedInserted(s0, insert, base, temp, side, node, s1, St());
    }

    /**
     * The re-balancing half of `ngx_rbtree_insert`: starting from the new
     * red leaf, recolour and rotate while the current node has a red
     * parent, then paint the root black.
     */
    method Rebalance(node: Handle, ghost base: Key)
      requires InsFix(St(), node) && Sorted(St(), insert) && AllInWindow(St(), insert, base)
      modifies this
      ensures Valid() && AllInWindow(St(), insert, base) && KeysKept(old(St()), St()) && insert == old(insert)
      ensures Framed(old(St()), St())
    {
      ghost var s1 := St();
      var x: Handle := node;
      FixBounds(St(), x);
      while x != root && Red(nodes[nodes[x].parent])
        invariant InsFix(St(), x) && (x != root ==> nodes[x].parent < |nodes|)
        invariant 0 <= hi[x] - lo[x] <= |order|
        invariant KeysKept(s1, St()) && Framed(s1, St()) && insert == old(insert)
        decreases Pending(St(), x), |order| - (hi[x] - lo[x])
      {
        ghost var prev := St();
        x := InsertStep(x);
        FramedTwice(s1, prev, St());
      }
      ghost var s2 := St();
      LinkedIsIn(s2, root);
      PaintFramed(s2, root, BlackByte);
      SetBlack(root);
      InsDone(s1, s2, x, insert, base);
      FramedTwice(s1, s2, St());
    }

    /**
     * One pass of the rebalancing loop of `ngx_rbtree_insert`, for a red
     * `x` with a red parent: either the uncle is red and the colours move
     * up to the grandparent, which becomes the next `x`, or one or two
     * rotations end the loop.
     */
    method InsertStep(x: Handle) returns (next: Handle)
      requires InsFix(St(), x) && x != root && nodes[x].parent < |nodes| && Red(nodes[nodes[x].parent])
      modifies this
      ensures InsFix(St(), next) && (next != root ==> nodes[next].parent < |nodes|)
      ensures 0 <= hi[next] - lo[next] <= |order|
      ensures Pending(St(), next) == 0 || hi[next] - lo[next] > old(hi[x] - lo[x])
      ensures KeysKept(old(St()), St()) && Framed(old(St()), St()) && insert == old(insert)
    {
      ghost var s := St();
      var p := nodes[x].parent;
      InsParents(St(), x);
      var g := nodes[p].parent;
      var d := if p == nodes[g].left then Left else Right;
      assert Balanced(St(), g);
      if Red(nodes[Child(nodes[g], Flip(d))]) {
        next := InsertRecolour(x, p, g, d);
      } else {
        var q := p;
        next := x;
        if x == Child(nodes[p], Flip(d)) {
          InsertInner(x, p, g, d);
          next, q := p, x;
        } else {
          InsParents(St(), x);
        }
        ghost var s2 := St();
        InsertOuter(next, q, g, d);
        FramedTwice(s, s2, St());
      }
      FixBounds(St(), next);
    }

    /** The uncle is red: parent and uncle turn black, the grandparent red. */
    method InsertRecolour(x: Handle, p: Handle, g: Handle, d: Side) returns (next: Handle)
      requires InsFix(St(), x) && x != root
      requires Linked(St(), p) && nodes[x].parent == p && Red(nodes[p])
      requires Linked(St(), g) && nodes[p].parent == g && Child(nodes[g], d) == p
      requires Child(nodes[g], Flip(d)) < |nodes| && Red(nodes[Child(nodes[g], Flip(d))])
      modifies this
      ensures next == g && InsFix(St(), g) && hi[g] - lo[g] > old(hi[x] - lo[x])
      ensures KeysKept(old(St()), St()) && Framed(old(St()), St()) && insert == old(insert)
    {
      ghost var s := St();
      var u := Child(nodes[g], Flip(d));
      ghost var r := Paint(Paint(Paint(s, p, BlackByte), u, BlackByte), g, RedByte).(bh := s.bh[g := s.bh[g] + 1]);
      InsUncleIn(s, x, p, g, d);
      RepaintFramed(s, p, BlackByte, u, BlackByte, g, RedByte, s.bh[g := s.bh[g] + 1]);
      InsUncleRed(s, x, p, g, d);
      Recolour(p, u, g);
      bh := bh[g := bh[g] + 1];
      assert St() == r;
      next := g;
    }

    /** The colour writes of the red-uncle case: parent and uncle black, grandparent red. */
    method Recolour(p: Handle, u: Handle, g: Handle)
      requires p < |nodes| && u < |nodes| && g < |nodes|
      modifies this
      ensures St() == Paint(Paint(Paint(old(St()), p, BlackByte), u, BlackByte), g, RedByte)
      ensures insert == old(insert)
    {
      SetBlack(p);
      SetBlack(u);
      SetRed(g);
    }

    /** The uncle is black and `x` the inner grandchild: rotate at the parent. */
    method InsertInner(x: Handle, p: Handle, g: Handle, d: Side)
      requires InsFix(St(), x) && x != root
      requires Linked(St(), p) && nodes[x].parent == p && Red(nodes[p]) && Child(nodes[p], Flip(d)) == x
      requires Linked(St(), g) && nodes[p].parent == g && Child(nodes[g], d) == p
      requires Child(nodes[g], Flip(d)) < |nodes| && !Red(nodes[Child(nodes[g], Flip(d))])
      modifies this
      ensures InsFix(St(), p) && p != root && nodes[p].parent == x && Linked(St(), x) && Child(nodes[x], d) == p
      ensures Red(nodes[x]) && nodes[x].parent == g && Linked(St(), g) && Child(nodes[g], d) == x
      ensures Child(nodes[g], Flip(d)) < |nodes| && !Red(nodes[Child(nodes[g], Flip(d))])
      ensures KeysKept(old(St()), St()) && Framed(old(St()), St()) && insert == old(insert)
    {
      ghost var s := St();
      CanRotate(s, d, p);
      Rotate(d, p);
      RotationFramed(s, d, p, St());
      InsInner(s, x, p, g, d, St());
    }

    /**
     * The uncle is black and `x` the outer grandchild: the parent turns
     * black, the grandparent red, and a rotation at the grandparent lifts
     * the parent into its place.
     */
    method InsertOuter(x: Handle, p: Handle, g: Handle, d: Side)
      requires InsFix(St(), x) && x != root && nodes[x].parent == p && p < |nodes| && Red(nodes[p])
      requires Linked(St(), p) && nodes[p].parent == g && Child(nodes[p], d) == x
      requires Linked(St(), g) && Child(nodes[g], d) == p
      requires Child(nodes[g], Flip(d)) < |nodes| && !Red(nodes[Child(nodes[g], Flip(d))])
      modifies this
      ensures InsFix(St(), x) && Pending(St(), x) == 0
      ensures KeysKept(old(St()), St()) && Framed(old(St()), St()) && insert == old(insert)
    {
      ghost var s := St();
      OuterEntry(s, x, p, g, d);
      LinkedIsIn(s, p);
      LinkedIsIn(s, g);
      PaintTwiceFramed(s, p, BlackByte, g, RedByte);
      SetBlack(p);
      SetRed(g);
      ghost var s2 := St();
      assert s2 == Paint(Paint(s, p, BlackByte), g, RedByte);
      Rotate(Flip(d), g);
      RotationFramed(s2, Flip(d), g, St());
      FramedTwice(s, s2, St());
      InsOuter(s, x, p, g, d, St());
    }

    /**
     * `ngx_rbtree_delete`: `node` leaves the tree. With an empty child slot
     * it is spliced out itself (`subst` is `node`, `temp` its other child);
     * otherwise its in-order successor `subst` is spliced out of its own
     * slot and relinked into `node`'s place with `node`'s colour. If
     * `subst` is the root, `temp` becomes the black root. Otherwise, when
     * the removed colour was black, the rebalancing loop runs from `temp`.
     * `node`'s record is cleared and its key zeroed. The in-order sequence
     * loses exactly `node`'s entry.
     */
    method Delete(node: Handle, ghost base: Key)
      requires Valid() && Linked(St(), node)
      modifies this
      ensures DeletedOf(old(St()), insert, base, node, St()) && insert == old(insert)
    {
      ghost var s := St();
      assert NodeOk(s, node);
      var subst: Handle, temp: Handle;
      if nodes[node].left == sentinel {
        subst, temp := node, nodes[node].right;
      } else if nodes[node].right == sentinel {
        subst, temp := node, nodes[node].left;
      } else {
        ChildOf(s, node, Right);
        subst := Min(nodes[node].right);
        temp := nodes[subst].right;
        SuccFacts(s, node, subst, temp);
      }
      if subst == root {
        RemoveRoot(node, temp, base);
      } else {
        RemoveSpliced(node, subst, temp, base);
      }
    }

    /**
     * The early return of `ngx_rbtree_delete`: `subst` is the root, which
     * has an empty child slot, so its other child `temp` becomes the black
     * root and `node` is cleared.
     */
    method RemoveRoot(node: Handle, temp: Handle, ghost base: Key)
      requires RootCase(St(), node, temp) && Valid()
      modifies this
      ensures DeletedOf(old(St()), insert, base, node, St()) && insert == old(insert)
    {
      ghost var s := St();
      root := temp;
      SetBlack(temp);
      nodes := nodes[node := nodes[node].(left := sentinel, right := sentinel, parent := sentinel, key := 0)];
      ghost var r := RootSpliced(s, node, temp);
      order, pos, lo, hi := r.order, r.pos, r.lo, r.hi;
      assert St() == r;
      RootDeleted(s, node, temp, insert, base);
    }

    /**
     * `ngx_rbtree_delete` below the root: splice `subst` out, and when its
     * colour was black run the rebalancing loop from `temp`.
     */
    method RemoveSpliced(node: Handle, subst: Handle, temp: Handle, ghost base: Key)
      requires SpliceCase(St(), node, subst, temp) && subst != root && Valid()
      modifies this
      ensures DeletedOf(old(St()), insert, base, node, St()) && insert == old(insert)
    {
      ghost var s := St();
      var red := Red(nodes[subst]);
      Splice(node, subst, temp);
      ghost var s1 := St();
      if red {
        SpliceRed(s, node, subst, temp, s1);
        assert Framed(s1, s1);
      } else {
        SpliceBlack(s, node, subst, temp, s1);
        DeleteRebalance(temp);
      }
      SplicedDeleted(s, node, subst, temp, s1, St(), insert, base);
    }

    /**
     * The splice of `ngx_rbtree_delete` when `subst` (`y`) is not the
     * root: `y` is unhooked, the successor takes over `z`'s place, and
     * then `z`'s record is cleared.
     */
    method Splice(z: Handle, y: Handle, t: Handle)
      requires SpliceCase(St(), z, y, t) && y != root
      modifies this
      ensures SpliceStep(old(St()), z, y, t, St()) && insert == old(insert)
    {
      ghost var s := St();
      CaseLocal(s, z, y, t);
      Unhook(z, y, t);
      if y != z {
        Relink(s, z, y, t);
      }
      assert St() == s.(nodes := Written(s, z, y, t), root := if z == s.root then y else s.root);
      Clear(s, z, y, t);
      SplicedIsSplice(s, z, y, t);
    }

    /** `z`'s record is cleared and the bookkeeping follows `z`'s removal. */
    method Clear(ghost s: State, z: Handle, ghost y: Handle, ghost t: Handle)
      requires SpliceLocal(s, z, y, t) && y != s.root
      requires St() == s.(nodes := Written(s, z, y, t), root := if z == s.root then y else s.root)
      modifies this
      ensures St() == Spliced(s, z, y, t) && insert == old(insert)
    {
      nodes := nodes[z := nodes[z].(left := sentinel, right := sentinel, parent := sentinel, key := 0)];
      ghost var r := Spliced(s, z, y, t);
      order, pos, lo, hi, bh := r.order, r.pos, r.lo, r.hi, r.bh;
    }

    /**
     * `y`'s parent takes `t` in `y`'s slot, and `t` points back at it (or
     * at `y` when that parent is `z`, which `y` is about to replace).
     */
    method Unhook(z: Handle, y: Handle, t: Handle)
      requires SpliceLocal(St(), z, y, t)
      modifies this
      ensures St() == old(St()).(nodes := Unhooked(old(St()), z, y, t)) && insert == old(insert)
    {
      var ns := nodes;
      var sp := ns[y].parent;
      if y == ns[sp].left {
        ns := ns[sp := ns[sp].(left := t)];
      } else {
        ns := ns[sp := ns[sp].(right := t)];
      }
      if y == z {
        ns := ns[t := ns[t].(parent := sp)];
      } else if sp == z {
        ns := ns[t := ns[t].(parent := y)];
      } else {
        ns := ns[t := ns[t].(parent := sp)];
      }
      nodes := ns;
    }

    /**
     * The successor `y` takes `z`'s links and colour, `z`'s parent (or the
     * root) takes `y` in `z`'s slot, and `y`'s new children point at `y`.
     */
    method Relink(ghost s: State, z: Handle, y: Handle, ghost t: Handle)
      requires SpliceLocal(s, z, y, t) && y != z && St() == s.(nodes := Unhooked(s, z, y, t))
      modifies this
      ensures St() == s.(nodes := Relinked(s, z, y, Unhooked(s, z, y, t)), root := if z == s.root then y else s.root)
      ensures insert == old(insert)
    {
      var ns := nodes;
      var zn := ns[z];
      ns := ns[y := ns[y].(left := zn.left, right := zn.right, parent := zn.parent, color := zn.color)];
      if z == root {
        root := y;
      } else if z == ns[zn.parent].left {
        ns := ns[zn.parent := ns[zn.parent].(left := y)];
      } else {
        ns := ns[zn.parent := ns[zn.parent].(right := y)];
      }
      if ns[y].left != sentinel {
        ns := ns[ns[y].left := ns[ns[y].left].(parent := y)];
      }
      if ns[y].right != sentinel {
        ns := ns[ns[y].right := ns[ns[y].right].(parent := y)];
      }
      nodes := ns;
    }

    /**
     * The rebalancing loop of `ngx_rbtree_delete`: while `temp` is a black
     * node other than the root, one of the four sibling cases either moves
     * the missing black level up or absorbs it; then `temp` is painted
     * black.
     */
    method DeleteRebalance(temp: Handle)
      requires DelFix(St(), temp)
      modifies this
      ensures RedBlack(St()) && KeysKept(old(St()), St()) && Framed(old(St()), St()) && insert == old(insert)
    {
      ghost var s1 := St();
      var x := temp;
      WidthBounds(St(), x);
      while x != root && !Red(nodes[x])
        invariant DelFix(St(), x) && 0 <= Width(St(), x) <= |order|
        invariant KeysKept(s1, St()) && Framed(s1, St()) && insert == old(insert)
        decreases |order| - Width(St(), x)
      {
        ghost var prev := St();
        x := DeleteStep(x);
        FramedTwice(s1, prev, St());
        WidthBounds(St(), x);
      }
      DeleteFinish(s1, x);
    }

    /** The end of the rebalancing loop of `ngx_rbtree_delete`: `temp` is painted black. */
    method DeleteFinish(ghost s1: State, x: Handle)
      requires DelFix(St(), x) && (x == root || Red(nodes[x]))
      requires KeysKept(s1, St()) && Framed(s1, St())
      modifies this
      ensures RedBlack(St()) && KeysKept(s1, St()) && Framed(s1, St()) && insert == old(insert)
    {
      ghost var s2 := St();
      FixIn(s2, x);
      PaintFramed(s2, x, BlackByte);
      SetBlack(x);
      DelFinish(s2, x);
      FramedTwice(s1, s2, St());
    }

    /**
     * One pass of the rebalancing loop of `ngx_rbtree_delete`, for a black
     * `x` that is not the root, hanging on side `d` of its parent `p`: a
     * red sibling is first rotated away; then a sibling with black
     * children is painted red and the loop moves up to `p`, or one or two
     * rotations end the loop at the root.
     */
    method DeleteStep(x: Handle) returns (next: Handle)
      requires DelFix(St(), x) && x != root && !Red(nodes[x])
      modifies this
      ensures DelFix(St(), next) && Width(St(), next) > old(Width(St(), x))
      ensures KeysKept(old(St()), St()) && Framed(old(St()), St()) && insert == old(insert)
    {
      ghost var s := St();
      var p := nodes[x].parent;
      var d := if x == nodes[p].left then Left else Right;
      StepFacts(St(), x, p, d);
      if Red(nodes[Child(nodes[p], Flip(d))]) {
        DeleteRedSibling(x, p, d);
      }
      ghost var s2 := St();
      next := DeleteBlackSibling(x, p, d);
      FramedTwice(s, s2, St());
    }

    /**
     * The rest of a pass of the rebalancing loop, once `x`'s sibling `w` is
     * black: with two black children `w` turns red and the loop moves up to
     * `p`; otherwise a red near child is first rotated to the far side, and
     * the far case ends the loop at the root.
     */
    method DeleteBlackSibling(x: Handle, p: Handle, d: Side) returns (next: Handle)
      requires Step(St(), x, p, d)
      requires Child(nodes[p], Flip(d)) < |nodes| && !Red(nodes[Child(nodes[p], Flip(d))])
      modifies this
      ensures DelFix(St(), next) && Width(St(), next) > old(Width(St(), x))
      ensures KeysKept(old(St()), St()) && Framed(old(St()), St()) && insert == old(insert)
    {
      ghost var s := St();
      StepFacts(St(), x, p, d);
      var w := Child(nodes[p], Flip(d));
      if !Red(nodes[nodes[w].left]) && !Red(nodes[nodes[w].right]) {
        DeleteNephewsBlack(x, p, d);
        next := p;
      } else {
        if !Red(nodes[Child(nodes[w], Flip(d))]) {
          DeleteNearRed(x, p, d);
        }
        ghost var s2 := St();
        DeleteFarRed(x, p, d);
        FramedTwice(s, s2, St());
        next := root;
      }
    }

    /** The sibling `w` is red: `w` turns black, `p` red, and `p` is rotated towards `x`. */
    method DeleteRedSibling(x: Handle, p: Handle, d: Side)
      requires RedSibCase(St(), x, p, d)
      modifies this
      ensures Step(St(), x, p, d) && Width(St(), x) == old(Width(St(), x))
      ensures Child(nodes[p], Flip(d)) < |nodes| && !Red(nodes[Child(nodes[p], Flip(d))])
      ensures KeysKept(old(St()), St()) && Framed(old(St()), St()) && insert == old(insert)
    {
      ghost var s := St();
      var w := Child(nodes[p], Flip(d));
      StepIn(s, x, p, d);
      PaintTwiceFramed(s, w, BlackByte, p, RedByte);
      SetBlack(w);
      SetRed(p);
      ghost var s2 := St();
      RedSibReady(s, x, p, d);
      Rotate(d, p);
      RotationFramed(s2, d, p, St());
      FramedTwice(s, s2, St());
      DelRedSibling(s, x, p, d, St());
    }

    /** The sibling `w` and both its children are black: `w` turns red and `p` loses a black level. */
    method DeleteNephewsBlack(x: Handle, p: Handle, d: Side)
      requires NephewsCase(St(), x, p, d)
      modifies this
      ensures DelFix(St(), p) && Width(St(), p) > old(Width(St(), x))
      ensures KeysKept(old(St()), St()) && Framed(old(St()), St()) && insert == old(insert)
    {
      ghost var s := St();
      var w := Child(nodes[p], Flip(d));
      StepIn(s, x, p, d);
      SetRed(w);
      bh := bh[p := bh[p] - 1];
      assert St() == Lowered(s, p, w);
      DelNephewsBlack(s, x, p, d);
    }

    /** The sibling's far child is black and its near child red: recolour and rotate at the sibling. */
    method DeleteNearRed(x: Handle, p: Handle, d: Side)
      requires NearCase(St(), x, p, d)
      modifies this
      ensures FarCase(St(), x, p, d) && Width(St(), x) == old(Width(St(), x))
      ensures KeysKept(old(St()), St()) && Framed(old(St()), St()) && insert == old(insert)
    {
      ghost var s := St();
      var w := Child(nodes[p], Flip(d));
      StepIn(s, x, p, d);
      PaintTwiceFramed(s, Child(nodes[w], d), BlackByte, w, RedByte);
      SetBlack(Child(nodes[w], d));
      SetRed(w);
      ghost var s2 := St();
      NearReady(s, x, p, d);
      Rotate(Flip(d), w);
      RotationFramed(s2, Flip(d), w, St());
      FramedTwice(s, s2, St());
      DelNearRed(s, x, p, d, St());
    }

    /**
     * The sibling's far child is red: the sibling takes `p`'s colour, `p`
     * and the far child turn black, and `p` is rotated towards `x`; the
     * tree is then balanced and the loop ends at the root.
     */
    method DeleteFarRed(x: Handle, p: Handle, d: Side)
      requires FarCase(St(), x, p, d)
      modifies this
      ensures DelFix(St(), root) && Width(St(), root) > old(Width(St(), x))
      ensures KeysKept(old(St()), St()) && Framed(old(St()), St()) && insert == old(insert)
    {
      ghost var s := St();
      FarPaint(x, p, d);
      ghost var s1 := St();
      ghost var r := FarRotate(p, d);
      FarStepOf(s, p, d, r, St());
      FramedTwice(s, s1, St());
      DelFarRed(s, x, p, d, St());
    }

    /** The recolouring of the far case: `w` takes `p`'s colour, `p` and the far child turn black. */
    method FarPaint(x: Handle, p: Handle, d: Side)
      requires FarCase(St(), x, p, d)
      modifies this
      ensures var s := old(St());
        var w := Child(s.nodes[p], Flip(d));
        St() == Paint(Paint(Paint(s, w, s.nodes[p].color), p, BlackByte), Child(s.nodes[w], Flip(d)), BlackByte)
        && Rotatable(St(), d, p) && Framed(s, St())
      ensures insert == old(insert)
    {
      ghost var s := St();
      var w := Child(nodes[p], Flip(d));
      var f := Child(nodes[w], Flip(d));
      StepIn(s, x, p, d);
      RepaintFramed(s, w, s.nodes[p].color, p, BlackByte, f, BlackByte, s.bh);
      FarReady(s, x, p, d);
      CopyColor(w, p);
      SetBlack(p);
      SetBlack(f);
      assert St() == Paint(Paint(Paint(s, w, s.nodes[p].color), p, BlackByte), f, BlackByte).(bh := s.bh);
    }

    /**
     * The rotation of the far case at `p`, after which `p` and its old
     * child `w` exchange black heights, `p` losing the missing level.
     */
    method FarRotate(p: Handle, d: Side) returns (ghost r: State)
      requires Rotatable(St(), d, p)
      modifies this
      ensures RotationOf(old(St()), d, p, r)
      ensures var w := old(Child(nodes[p], Flip(d)));
        St() == r.(bh := old(bh)[p := old(bh[p]) - 1][w := old(bh[p])])
      ensures Framed(old(St()), St()) && insert == old(insert)
    {
      ghost var s := St();
      var w := Child(nodes[p], Flip(d));
      Rotate(d, p);
      RotationFramed(s, d, p, St());
      r := St();
      bh := bh[p := s.bh[p] - 1][w := s.bh[p]];
      FramedRecords(s, r, St());
    }

    /**
     * `ngx_rbtree_min`: follow left links from `node` to the first node of
     * its subtree. Nothing is modified; in a sorted tree no key of the
     * subtree precedes the one found.
     */
    method Min(node: Handle) returns (m: Handle)
      requires Shape(St()) && Linked(St(), node)
      ensures InSubtree(St(), node, m) && nodes[m].left == sentinel && pos[m] == lo[node]
      ensures Sorted(St(), insert) ==>
        forall n: Handle :: InSubtree(St(), node, n) ==> !Precedes(insert, nodes[n].key, nodes[m].key)
    {
      m := node;
      assert NodeOk(St(), node);
      while nodes[m].left != sentinel
        invariant Linked(St(), m) && lo[m] == lo[node] <= pos[m] < hi[m] <= hi[node]
        decreases pos[m] - lo[m]
      {
        assert NodeOk(St(), m);
        m := nodes[m].left;
        assert NodeOk(St(), m);
      }
      assert NodeOk(St(), m);
      if Sorted(St(), insert) {
        MinFirst(St(), insert, node, m);
      }
    }

    /**
     * `ngx_rbtree_next`: the in-order successor of `node`, `None` (the C
     * routine's NULL) when `node` is the last. With a right subtree it is
     * that subtree's minimum, otherwise the nearest ancestor whose left
     * subtree holds `node`.
     */
    method Next(node: Handle) returns (r: Option<Handle>)
      requires Shape(St()) && Linked(St(), node)
      ensures r.None? <==> pos[node] == |order| - 1
      ensures r.Some? ==> Linked(St(), r.value) && pos[r.value] == pos[node] + 1
    {
      assert NodeOk(St(), node);
      if nodes[node].right != sentinel {
        var m := Min(nodes[node].right);
        return Some(m);
      }
      var n := node;
      while true
        invariant Linked(St(), n) && hi[n] == pos[node] + 1
        decreases lo[n]
      {
        assert NodeOk(St(), n);
        var parent := nodes[n].parent;
        if n == root {
          return None;
        }
        assert UpOk(St(), n) && NodeOk(St(), parent);
        if n == nodes[parent].left {
          return Some(parent);
        }
        n := parent;
      }
    }

    /**
     * Calling `ngx_rbtree_next` repeatedly from the minimum of the root
     * visits every linked node exactly once, in order.
     */
    method Walk() returns (visited: seq<Handle>)
      requires Shape(St())
      ensures visited == order
    {
      visited := [];
      if root == sentinel {
        return;
      }
      var n := Min(root);
      visited := [n];
      while true
        invariant 1 <= |visited| <= |order| && visited == order[..|visited|] && n == order[|visited| - 1]
        decreases |order| - |visited|
      {
        LinkedAt(St(), |visited| - 1);
        var r := Next(n);
        if r.None? {
          return;
        }
        n := r.value;
        visited := visited + [n];
      }
    }
  }
}
