/**
 * The first half of `ngx_rbtree_delete`: the binary search tree delete.
 *
 * The deleted node `z` is replaced by `subst` (here `y`) and `temp` (here
 * `t`). When `z` has an empty child slot, `y` is `z` itself and `t` its
 * other child; otherwise `y` is the minimum of `z`'s right subtree, the
 * next node in order, and `t` is `y`'s right child. `t` moves into `y`'s
 * slot, and when `y` is not `z`, `y` takes over `z`'s links, colour and
 * slot. `z`'s links are then cleared and its key zeroed.
 *
 * The in-order sequence loses `z` at position `k`. Positions and range
 * bounds above `y`'s position `j` move down by one, and `y` takes over
 * `z`'s position, range and black height.
 */
module DeleteSplice {
  import opened Keys
  import opened Layout
  import opened Colours
  import opened DeleteFixup

  /** A position or range bound after removing position `j`: those above `j` move down by one. */
  function Down(v: int, j: int): int
  {
    if v > j then v - 1 else v
  }

  /** Whose old bookkeeping `m` has afterwards: the successor `y` takes the deleted node `z`'s. */
  function Src(z: Handle, y: Handle, m: Handle): Handle
  {
    if m == y then z else m
  }

  /** What a child slot that held `c` holds afterwards: `z`'s slot holds `y` (or `t`), `y`'s holds `t`. */
  function Repl(z: Handle, y: Handle, t: Handle, c: Handle): Handle
  {
    if c == z then (if y == z then t else y) else if c == y then t else c
  }

  /**
   * The choice of `subst` and `temp` at the start of `ngx_rbtree_delete`:
   * with an empty left or right slot, `z` itself and its other child;
   * otherwise the minimum `y` of the right subtree (the node right after
   * `z` in order, with an empty left slot) and `y`'s right child.
   */
  ghost predicate Chosen(s: State, z: Handle, y: Handle, t: Handle)
    requires Sized(s) && z < |s.nodes|
  {
    var nd := s.nodes[z];
    if nd.left == s.sentinel then y == z && t == nd.right
    else if nd.right == s.sentinel then y == z && t == nd.left
    else (y < |s.nodes| && Linked(s, y) && s.pos[y] == s.pos[z] + 1 && s.nodes[y].left == s.sentinel
          && t == s.nodes[y].right)
  }

  /** The situation of the splice: `z` is linked and `y`, `t` are chosen as the C code does. */
  ghost predicate SpliceCase(s: State, z: Handle, y: Handle, t: Handle)
  {
    Shape(s) && Linked(s, z) && Chosen(s, z, y, t)
  }

  /** The new parent of `t`: `y` when `y` was `z`'s right child, else `y`'s old parent. */
  ghost function NewParent(s: State, z: Handle, y: Handle): Handle
    requires y < |s.nodes|
  {
    if y != z && s.nodes[y].parent == z then y else s.nodes[y].parent
  }

  /** With an empty slot, `z` is spliced out itself, and `t` covers `z`'s range without `z`. */
  lemma SelfFacts(s: State, z: Handle, y: Handle, t: Handle)
    requires SpliceCase(s, z, y, t) && y == z
    ensures var k := s.pos[z];
      NodeOk(s, z) && t < |s.nodes| && t != z
      && (t == s.sentinel <==> s.hi[z] - s.lo[z] == 1)
      && (s.nodes[z].left == t || s.nodes[z].right == t)
      && (s.nodes[z].left == s.sentinel || s.nodes[z].right == s.sentinel)
      && (t != s.sentinel ==>
            Linked(s, t) && s.nodes[t].parent == z && Down(s.lo[t], k) == s.lo[z] && Down(s.hi[t], k) == s.hi[z] - 1)
  {
    assert NodeOk(s, z);
    var nd := s.nodes[z];
    if nd.left == s.sentinel {
      if t != s.sentinel {
        ChildOf(s, z, Right);
      }
    } else {
      ChildOf(s, z, Left);
    }
  }

  /**
   * With two children, `y` is the first node of `z`'s right subtree: a
   * linked node with an empty left slot, whose right child is `t`; its
   * parent `sp` is `z` exactly when `y` is `z`'s right child, and otherwise
   * holds `y` on the left and starts its range at `y`.
   */
  lemma SuccFacts(s: State, z: Handle, y: Handle, t: Handle)
    requires SpliceCase(s, z, y, t) && y != z
    ensures var k := s.pos[z];
      var j := s.pos[y];
      var sp := s.nodes[y].parent;
      var nd := s.nodes[z];
      NodeOk(s, z) && NodeOk(s, y) && j == k + 1 && s.lo[y] == j && y != s.root
      && nd.left != s.sentinel && nd.right != s.sentinel && Linked(s, nd.left) && Linked(s, nd.right)
      && s.nodes[nd.left].parent == z && s.nodes[nd.right].parent == z
      && s.lo[nd.left] == s.lo[z] && s.hi[nd.left] == k && s.lo[nd.right] == j && s.hi[nd.right] == s.hi[z]
      && nd.left != y && nd.left != z && nd.right != z && nd.left != nd.right
      && sp < |s.nodes| && Linked(s, sp) && sp != y && NodeOk(s, sp)
      && (sp == z <==> nd.right == y)
      && (sp != z ==> s.nodes[sp].left == y && s.lo[sp] == j && s.pos[sp] == s.hi[y] && sp != t)
      && t < |s.nodes| && t != y && t != z && t != nd.left && t != nd.right
      && (t == s.sentinel <==> s.hi[y] == j + 1)
      && (t != s.sentinel ==> Linked(s, t) && s.nodes[t].parent == y && s.lo[t] == j + 1 && s.hi[t] == s.hi[y])
  {
    var nd := s.nodes[z];
    assert NodeOk(s, z) && NodeOk(s, y);
    ChildOf(s, z, Left);
    ChildOf(s, z, Right);
    assert s.lo[y] == s.pos[y];
    assert Linked(s, s.root);
    var sp := s.nodes[y].parent;
    assert y != s.root;
    assert UpOk(s, y);
    assert NodeOk(s, sp);
    if s.nodes[sp].right == y {
      assert s.pos[sp] == s.pos[z];
    } else {
      assert sp != z;
    }
    if t != s.sentinel {
      ChildOf(s, y, Right);
    }
  }

  // ---------------------------------------------------------------------------
  // The writes

  /** What the writes of the splice rely on: every record they touch is in the arena. */
  ghost predicate SpliceLocal(s: State, z: Handle, y: Handle, t: Handle)
  {
    Sized(s) && z < |s.nodes| && y < |s.nodes| && t < |s.nodes| && z != s.sentinel && y != s.sentinel
    && 0 <= s.pos[z] < |s.order| && s.pos[z] <= s.pos[y] && y != t && z != t
    && s.nodes[y].parent < |s.nodes| && s.nodes[z].left < |s.nodes| && s.nodes[z].right < |s.nodes|
    && (z != s.root ==> s.nodes[z].parent < |s.nodes|)
  }

  /** `y`'s parent takes `t` in `y`'s slot, and `t` points back at `NewParent`. */
  ghost function Unhooked(s: State, z: Handle, y: Handle, t: Handle): (r: seq<Node>)
    requires SpliceLocal(s, z, y, t)
    ensures |r| == |s.nodes|
  {
    var sp := s.nodes[y].parent;
    var n1 := s.nodes[sp := WithChild(s.nodes[sp], SideOf(s.nodes[sp], y), t)];
    n1[t := n1[t].(parent := NewParent(s, z, y))]
  }

  /**
   * The successor `y` takes over `z`'s links and colour, `z`'s parent (or
   * the root) takes `y` in `z`'s slot, and `y`'s new children point back
   * at `y`.
   */
  ghost function Relinked(s: State, z: Handle, y: Handle, n0: seq<Node>): (r: seq<Node>)
    requires Sized(s) && |n0| == |s.nodes| && z < |n0| && y < |n0| && n0[z].left < |n0| && n0[z].right < |n0|
    requires z != s.root ==> n0[z].parent < |n0|
    ensures |r| == |n0|
  {
    var zn := n0[z];
    var n1 := n0[y := n0[y].(left := zn.left, right := zn.right, parent := zn.parent, color := zn.color)];
    var n2 := if z == s.root then n1 else n1[zn.parent := WithChild(n1[zn.parent], SideOf(n1[zn.parent], z), y)];
    var n3 := if n2[y].left != s.sentinel then n2[n2[y].left := n2[n2[y].left].(parent := y)] else n2;
    if n3[y].right != s.sentinel then n3[n3[y].right := n3[n3[y].right].(parent := y)] else n3
  }

  /**
   * The records after the splice of a non-root `y`: `y`'s parent takes
   * `t` in `y`'s slot and `t` points back at it (or at `y` when that
   * parent was `z`); then the successor case relinks `y`; finally `z`'s
   * links are cleared and its key zeroed.
   */
  ghost function SplicedNodes(s: State, z: Handle, y: Handle, t: Handle): (r: seq<Node>)
    requires SpliceLocal(s, z, y, t)
    ensures |r| == |s.nodes|
  {
    var n3 := Written(s, z, y, t);
    n3[z := n3[z].(left := s.sentinel, right := s.sentinel, parent := s.sentinel, key := 0)]
  }

  /** The records after the writes that relink the tree, before `z` is cleared. */
  ghost function Written(s: State, z: Handle, y: Handle, t: Handle): (r: seq<Node>)
    requires SpliceLocal(s, z, y, t)
    ensures |r| == |s.nodes|
  {
    var n2 := Unhooked(s, z, y, t);
    if y == z then n2 else Relinked(s, z, y, n2)
  }

  /** The state after the splice of a non-root `y`, with the bookkeeping of `z`'s removal. */
  ghost function Spliced(s: State, z: Handle, y: Handle, t: Handle): State
    requires SpliceLocal(s, z, y, t)
  {
    var k := s.pos[z];
    var j := s.pos[y];
    s.(nodes := SplicedNodes(s, z, y, t),
       root := if z == s.root then y else s.root,
       order := s.order[..k] + s.order[k + 1..],
       pos := seq(|s.pos|, m requires 0 <= m < |s.pos| => Down(s.pos[Src(z, y, m)], j)),
       lo := seq(|s.lo|, m requires 0 <= m < |s.lo| => Down(s.lo[Src(z, y, m)], j)),
       hi := seq(|s.hi|, m requires 0 <= m < |s.hi| => Down(s.hi[Src(z, y, m)], j)),
       bh := s.bh[y := s.bh[z]])
  }

  // ---------------------------------------------------------------------------
  // What the writes do, node by node

  /**
   * The new parent link of `m`: `t` points at `NewParent`; in the successor
   * case `y` points at `z`'s parent and `z`'s children point at `y`; every
   * other link is kept.
   */
  ghost function NewUp(s: State, z: Handle, y: Handle, t: Handle, m: Handle): Handle
    requires z < |s.nodes| && y < |s.nodes| && m < |s.nodes|
  {
    if m == t then NewParent(s, z, y)
    else if y != z && m == y then s.nodes[z].parent
    else if y != z && (m == s.nodes[z].left || m == s.nodes[z].right) then y
    else s.nodes[m].parent
  }

  /**
   * Record `m` other than `z` after the splice: key kept, colour of the
   * node whose place it takes, and a linked node's child slots hold what
   * that node's slots held with `z` and `y` replaced.
   */
  ghost predicate Moves(s: State, z: Handle, y: Handle, t: Handle, rd: Node, m: Handle)
    requires Sized(s) && z < |s.nodes| && y < |s.nodes| && m < |s.nodes|
  {
    var nd := s.nodes[m];
    var src := s.nodes[Src(z, y, m)];
    rd.key == nd.key && rd.data == nd.data && rd.color == src.color
    && rd.left == (if Linked(s, m) then Repl(z, y, t, src.left) else nd.left)
    && rd.right == (if Linked(s, m) then Repl(z, y, t, src.right) else nd.right)
    && rd.parent == NewUp(s, z, y, t, m)
  }

  /**
   * `r` is `s` with `z` spliced out: `z` leaves `order` at position `k`,
   * the successor `y` (if any) takes `z`'s position, range, black height,
   * colour and links, bounds above `y`'s old position move down by one,
   * and `z`'s record is cleared.
   */
  ghost predicate SplicedOf(s: State, z: Handle, y: Handle, t: Handle, r: State)
    requires SpliceLocal(s, z, y, t)
  {
    SplicedBook(s, z, y, t, r) && SplicedRecords(s, z, y, t, r)
  }

  /** The bookkeeping part of `SplicedOf`. */
  ghost predicate SplicedBook(s: State, z: Handle, y: Handle, t: Handle, r: State)
    requires SpliceLocal(s, z, y, t)
  {
    var k := s.pos[z];
    var j := s.pos[y];
    |r.nodes| == |s.nodes| && r.sentinel == s.sentinel && r.root == Repl(z, y, t, s.root)
    && r.order == s.order[..k] + s.order[k + 1..]
    && |r.pos| == |s.pos| && |r.lo| == |s.lo| && |r.hi| == |s.hi| && |r.bh| == |s.bh|
    && (forall m :: 0 <= m < |s.nodes| ==>
          r.pos[m] == Down(s.pos[Src(z, y, m)], j) && r.lo[m] == Down(s.lo[Src(z, y, m)], j)
          && r.hi[m] == Down(s.hi[Src(z, y, m)], j) && r.bh[m] == s.bh[Src(z, y, m)])
  }

  /** The records part of `SplicedOf`. */
  ghost predicate SplicedRecords(s: State, z: Handle, y: Handle, t: Handle, r: State)
    requires SpliceLocal(s, z, y, t)
  {
    |r.nodes| == |s.nodes|
    && r.nodes[z] == s.nodes[z].(left := s.sentinel, right := s.sentinel, parent := s.sentinel, key := 0)
    && (forall m :: 0 <= m < |s.nodes| && m != z ==> Moves(s, z, y, t, r.nodes[m], m))
  }

  /** The chosen records satisfy what the writes rely on. */
  lemma CaseLocal(s: State, z: Handle, y: Handle, t: Handle)
    requires SpliceCase(s, z, y, t) && y != s.root
    ensures SpliceLocal(s, z, y, t)
  {
    assert NodeOk(s, z);
    if y == z {
      SelfFacts(s, z, y, t);
      assert UpOk(s, z);
    } else {
      SuccFacts(s, z, y, t);
      if z != s.root {
        assert UpOk(s, z);
      }
    }
  }

  /** `z`'s parent, when `z` is not the root, is linked, holds `z` and lies outside `z`'s subtree. */
  lemma Above(s: State, z: Handle)
    requires Shape(s) && Linked(s, z) && z != s.root
    ensures var zp := s.nodes[z].parent;
      zp < |s.nodes| && Linked(s, zp) && zp != z && NodeOk(s, zp)
      && Child(s.nodes[zp], SideOf(s.nodes[zp], z)) == z && Child(s.nodes[zp], Flip(SideOf(s.nodes[zp], z))) != z
      && (s.pos[zp] < s.lo[z] || s.hi[z] <= s.pos[zp])
  {
    assert NodeOk(s, z) && UpOk(s, z);
    assert NodeOk(s, s.nodes[z].parent);
  }

  /** In the successor case `z`'s parent is none of the records the splice rewrites. */
  lemma SuccAbove(s: State, z: Handle, y: Handle, t: Handle)
    requires SpliceCase(s, z, y, t) && y != z && z != s.root
    ensures var zp := s.nodes[z].parent;
      var nd := s.nodes[z];
      zp < |s.nodes| && Linked(s, zp) && NodeOk(s, zp) && zp != z
      && zp != y && zp != s.nodes[y].parent && zp != t && zp != nd.left && zp != nd.right
      && Child(s.nodes[zp], SideOf(s.nodes[zp], z)) == z && Child(s.nodes[zp], Flip(SideOf(s.nodes[zp], z))) != z
  {
    SuccFacts(s, z, y, t);
    Above(s, z);
    var zp := s.nodes[z].parent;
    var nd := s.nodes[z];
    assert NodeOk(s, nd.left) && NodeOk(s, nd.right);
  }

  /** With an empty slot, `z`'s parent (when `z` is not the root) is `y`'s parent and not `t`. */
  lemma SelfAbove(s: State, z: Handle, y: Handle, t: Handle)
    requires SpliceCase(s, z, y, t) && y == z && z != s.root
    ensures var zp := s.nodes[z].parent;
      zp < |s.nodes| && Linked(s, zp) && NodeOk(s, zp) && zp != z && zp != t
      && Child(s.nodes[zp], SideOf(s.nodes[zp], z)) == z && Child(s.nodes[zp], Flip(SideOf(s.nodes[zp], z))) != z
  {
    SelfFacts(s, z, y, t);
    Above(s, z);
    if t != s.sentinel {
      assert NodeOk(s, t);
    }
  }

  /** What `Relinked` leaves in each record, when the records it writes are distinct. */
  lemma RelinkedAt(s: State, z: Handle, y: Handle, n0: seq<Node>, m: Handle)
    requires Sized(s) && |n0| == |s.nodes| && z < |n0| && y < |n0| && m < |n0|
    requires var zn := n0[z];
      zn.left < |n0| && zn.right < |n0| && zn.left != s.sentinel && zn.left != y && zn.right != y
      && zn.left != zn.right && y != z
      && (z != s.root ==> zn.parent < |n0| && zn.parent != y && zn.parent != zn.left && zn.parent != zn.right)
    ensures var zn := n0[z];
      var r := Relinked(s, z, y, n0);
      |r| == |n0|
      && (m == y ==> r[m] == n0[y].(left := zn.left, right := zn.right, parent := zn.parent, color := zn.color))
      && (z != s.root && m == zn.parent ==> r[m] == WithChild(n0[m], SideOf(n0[m], z), y))
      && (m == zn.left ==> r[m] == n0[m].(parent := y))
      && (m == zn.right && m != s.sentinel ==> r[m] == n0[m].(parent := y))
      && (m != y && (z == s.root || m != zn.parent) && m != zn.left && (m != zn.right || m == s.sentinel)
          ==> r[m] == n0[m])
  {
  }

  /** What `Unhooked` leaves in each record, when `t` is not `y`'s parent. */
  lemma UnhookedAt(s: State, z: Handle, y: Handle, t: Handle, m: Handle)
    requires SpliceLocal(s, z, y, t) && s.nodes[y].parent != t && m < |s.nodes|
    ensures var sp := s.nodes[y].parent;
      var r := Unhooked(s, z, y, t);
      (m == sp ==> r[m] == WithChild(s.nodes[sp], SideOf(s.nodes[sp], y), t))
      && (m == t ==> r[m] == s.nodes[t].(parent := NewParent(s, z, y)))
      && (m != sp && m != t ==> r[m] == s.nodes[m])
  {
  }

  /**
   * The records of the successor case: `z`'s children `a` and `b`, `y`
   * with its parent `sp` and right child `t`, and `z`'s parent `zp`, with
   * the distinctness the writes rely on.
   */
  ghost predicate SuccRoles(s: State, z: Handle, y: Handle, t: Handle)
  {
    SpliceLocal(s, z, y, t)
    && var nd := s.nodes[z];
    var sp := s.nodes[y].parent;
    var a := nd.left;
    var b := nd.right;
    y != z && a != s.sentinel && b != s.sentinel && a != y && a != z && a != b && a != t && a != sp
    && b != z && b != t && sp != y && sp != t && (sp == z <==> b == y)
    && (sp != z ==> s.nodes[sp].left == y) && s.nodes[y].left == s.sentinel && s.nodes[y].right == t
    && Linked(s, y) && Linked(s, sp) && Linked(s, a) && Linked(s, b) && (t != s.sentinel ==> Linked(s, t))
    && (z != s.root ==>
          var zp := nd.parent;
          zp != z && zp != y && zp != sp && zp != t && zp != a && zp != b && Linked(s, zp)
          && Child(s.nodes[zp], SideOf(s.nodes[zp], z)) == z && Child(s.nodes[zp], Flip(SideOf(s.nodes[zp], z))) != z)
  }

  /** The children of `m` that are not the sentinel point back at `m` and are not the root. */
  ghost predicate KidsPoint(s: State, m: Handle)
    requires Sized(s) && m < |s.nodes|
  {
    var nd := s.nodes[m];
    nd.left < |s.nodes| && nd.right < |s.nodes|
    && (nd.left != s.sentinel ==> s.nodes[nd.left].parent == m && nd.left != s.root && nd.left != nd.right)
    && (nd.right != s.sentinel ==> s.nodes[nd.right].parent == m && nd.right != s.root)
  }

  lemma KidsPointHolds(s: State, m: Handle)
    requires Shape(s) && Linked(s, m)
    ensures KidsPoint(s, m)
  {
    assert NodeOk(s, m);
    RootNotChild(s, m);
  }

  /** The successor case has those roles. */
  lemma SuccHasRoles(s: State, z: Handle, y: Handle, t: Handle)
    requires SpliceCase(s, z, y, t) && y != z
    ensures SuccRoles(s, z, y, t)
  {
    SuccFacts(s, z, y, t);
    CaseLocal(s, z, y, t);
    if z != s.root {
      SuccAbove(s, z, y, t);
    }
  }

  /** After unhooking `y`, `z`'s record differs only in that `y`'s slot of `z`, if any, holds `t`. */
  lemma SuccUnhookedZ(s: State, z: Handle, y: Handle, t: Handle)
    requires SuccRoles(s, z, y, t)
    ensures var zn := Unhooked(s, z, y, t)[z];
      var nd := s.nodes[z];
      zn.left == nd.left && zn.right == Repl(z, y, t, nd.right) && zn.parent == nd.parent && zn.color == nd.color
  {
    UnhookedAt(s, z, y, t, z);
  }

  /** The records the successor case writes, from `Relinked`'s point of view. */
  lemma SuccRelinkedAt(s: State, z: Handle, y: Handle, t: Handle, m: Handle)
    requires SuccRoles(s, z, y, t) && m < |s.nodes|
    ensures var n2 := Unhooked(s, z, y, t);
      var zn := n2[z];
      var r := Relinked(s, z, y, n2);
      (m == y ==> r[m] == n2[y].(left := zn.left, right := zn.right, parent := zn.parent, color := zn.color))
      && (z != s.root && m == zn.parent ==> r[m] == WithChild(n2[m], SideOf(n2[m], z), y))
      && (m == zn.left ==> r[m] == n2[m].(parent := y))
      && (m == zn.right && m != s.sentinel ==> r[m] == n2[m].(parent := y))
      && (m != y && (z == s.root || m != zn.parent) && m != zn.left && (m != zn.right || m == s.sentinel)
          ==> r[m] == n2[m])
  {
    SuccUnhookedZ(s, z, y, t);
    RelinkedAt(s, z, y, Unhooked(s, z, y, t), m);
  }

  /** A child that is not the sentinel has its parent link at `m`, is not the root, and is `m`'s only such slot. */
  lemma Kid(s: State, m: Handle, c: Handle)
    requires Shape(s) && Linked(s, m) && c != s.sentinel && (s.nodes[m].left == c || s.nodes[m].right == c)
    ensures c < |s.nodes| && Linked(s, c) && s.nodes[c].parent == m && c != s.root
    ensures s.nodes[m].left != s.nodes[m].right
  {
    assert NodeOk(s, m);
    RootNotChild(s, m);
  }

  /** `y` takes over `z`'s links, colour and parent. */
  lemma SuccAtY(s: State, z: Handle, y: Handle, t: Handle)
    requires SuccRoles(s, z, y, t)
    ensures Moves(s, z, y, t, Written(s, z, y, t)[y], y)
  {
    SuccRelinkedAt(s, z, y, t, y);
    UnhookedAt(s, z, y, t, y);
    SuccUnhookedZ(s, z, y, t);
  }

  /** `y`'s parent, when it is not `z`, takes `t` as its left child. */
  lemma SuccAtSp(s: State, z: Handle, y: Handle, t: Handle)
    requires SuccRoles(s, z, y, t) && s.nodes[y].parent != z && KidsPoint(s, s.nodes[y].parent)
    ensures Moves(s, z, y, t, Written(s, z, y, t)[s.nodes[y].parent], s.nodes[y].parent)
  {
    var sp := s.nodes[y].parent;
    SuccRelinkedAt(s, z, y, t, sp);
    UnhookedAt(s, z, y, t, sp);
    SuccUnhookedZ(s, z, y, t);
  }

  /** `z`'s parent takes `y` in `z`'s slot. */
  lemma SuccAtZp(s: State, z: Handle, y: Handle, t: Handle)
    requires SuccRoles(s, z, y, t) && z != s.root && KidsPoint(s, s.nodes[z].parent)
    ensures Moves(s, z, y, t, Written(s, z, y, t)[s.nodes[z].parent], s.nodes[z].parent)
  {
    var zp := s.nodes[z].parent;
    SuccRelinkedAt(s, z, y, t, zp);
    UnhookedAt(s, z, y, t, zp);
    SuccUnhookedZ(s, z, y, t);
  }

  /** `z`'s children other than `y` and `y`'s parent only change their parent link, to `y`. */
  lemma SuccKidRecord(s: State, z: Handle, y: Handle, t: Handle, m: Handle)
    requires SuccRoles(s, z, y, t)
    requires (m == s.nodes[z].left || m == s.nodes[z].right) && m != y && m != s.nodes[y].parent
    ensures Written(s, z, y, t)[m] == s.nodes[m].(parent := y)
  {
    SuccRelinkedAt(s, z, y, t, m);
    UnhookedAt(s, z, y, t, m);
    SuccUnhookedZ(s, z, y, t);
  }

  /** `z`'s children other than `y` and `y`'s parent point at `y`. */
  lemma SuccAtKid(s: State, z: Handle, y: Handle, t: Handle, m: Handle)
    requires SuccRoles(s, z, y, t)
    requires (m == s.nodes[z].left || m == s.nodes[z].right) && m != y && m != s.nodes[y].parent
    requires KidsPoint(s, m)
    ensures Moves(s, z, y, t, Written(s, z, y, t)[m], m)
  {
    SuccKidRecord(s, z, y, t, m);
    var nd := s.nodes[m];
    assert Src(z, y, m) == m && NewUp(s, z, y, t, m) == y;
    assert Repl(z, y, t, nd.left) == nd.left by {
      if nd.left != s.sentinel {
        assert nd.left != z && nd.left != y;
      }
    }
    assert Repl(z, y, t, nd.right) == nd.right by {
      if nd.right != s.sentinel {
        assert nd.right != z && nd.right != y;
      }
    }
  }

  /** `t` points at its new parent and keeps its children. */
  lemma SuccAtT(s: State, z: Handle, y: Handle, t: Handle)
    requires SuccRoles(s, z, y, t) && (Linked(s, t) ==> KidsPoint(s, t))
    ensures Moves(s, z, y, t, Written(s, z, y, t)[t], t)
  {
    SuccRelinkedAt(s, z, y, t, t);
    UnhookedAt(s, z, y, t, t);
    SuccUnhookedZ(s, z, y, t);
    var w := Written(s, z, y, t)[t];
    if s.nodes[z].right == y {
      assert NewParent(s, z, y) == y;
    } else {
      assert w == s.nodes[t].(parent := NewParent(s, z, y));
    }
    assert w.left == s.nodes[t].left && w.right == s.nodes[t].right;
  }

  /** Every other record is untouched. */
  lemma SuccOtherRecord(s: State, z: Handle, y: Handle, t: Handle, m: Handle)
    requires SuccRoles(s, z, y, t) && m < |s.nodes|
    requires m != z && m != y && m != t && m != s.nodes[y].parent && m != s.nodes[z].left && m != s.nodes[z].right
    requires z != s.root ==> m != s.nodes[z].parent
    ensures Written(s, z, y, t)[m] == s.nodes[m]
  {
    SuccRelinkedAt(s, z, y, t, m);
    UnhookedAt(s, z, y, t, m);
    SuccUnhookedZ(s, z, y, t);
  }

  /** No other node had `z` or `y` as a child, so every other record is as `Moves` says. */
  lemma SuccAtOther(s: State, z: Handle, y: Handle, t: Handle, m: Handle)
    requires SuccRoles(s, z, y, t) && m < |s.nodes| && (Linked(s, m) ==> KidsPoint(s, m))
    requires m != z && m != y && m != t && m != s.nodes[y].parent && m != s.nodes[z].left && m != s.nodes[z].right
    requires z != s.root ==> m != s.nodes[z].parent
    ensures Moves(s, z, y, t, Written(s, z, y, t)[m], m)
  {
    SuccOtherRecord(s, z, y, t, m);
  }

  /** With an empty slot `z`'s parent takes `t` in `z`'s slot, `t` points back at it, and no other record changes. */
  lemma SelfAt(s: State, z: Handle, y: Handle, t: Handle, m: Handle)
    requires SpliceCase(s, z, y, t) && y == z && z != s.root && m < |s.nodes| && m != z
    ensures SpliceLocal(s, z, y, t) && Moves(s, z, y, t, Written(s, z, y, t)[m], m)
  {
    SelfAbove(s, z, y, t);
    SelfFacts(s, z, y, t);
    CaseLocal(s, z, y, t);
    UnhookedAt(s, z, y, t, m);
    if Linked(s, m) {
      var nd := s.nodes[m];
      if nd.left != s.sentinel {
        Kid(s, m, nd.left);
      }
      if nd.right != s.sentinel {
        Kid(s, m, nd.right);
      }
    }
  }

  /** In the successor case every record but `z`'s is as `Moves` says. */
  lemma SuccAt(s: State, z: Handle, y: Handle, t: Handle, m: Handle)
    requires SpliceCase(s, z, y, t) && SuccRoles(s, z, y, t) && m < |s.nodes| && m != z
    ensures Moves(s, z, y, t, Written(s, z, y, t)[m], m)
  {
    var nd := s.nodes[z];
    if Linked(s, m) {
      KidsPointHolds(s, m);
    }
    if m == y {
      SuccAtY(s, z, y, t);
    } else if m == t {
      SuccAtT(s, z, y, t);
    } else if m == s.nodes[y].parent {
      SuccAtSp(s, z, y, t);
    } else if z != s.root && m == nd.parent {
      SuccAtZp(s, z, y, t);
    } else if m == nd.left || m == nd.right {
      SuccAtKid(s, z, y, t, m);
    } else {
      SuccAtOther(s, z, y, t, m);
    }
  }

  /** The writes keep the bookkeeping of `z`'s removal. */
  lemma SplicedBookIs(s: State, z: Handle, y: Handle, t: Handle)
    requires SpliceLocal(s, z, y, t) && y != s.root && (z == s.root ==> y != z)
    ensures SplicedBook(s, z, y, t, Spliced(s, z, y, t))
  {
  }

  /** `z`'s record ends cleared: its colour and spare byte were never written. */
  lemma SplicedAtZ(s: State, z: Handle, y: Handle, t: Handle)
    requires SpliceCase(s, z, y, t) && y != s.root && SpliceLocal(s, z, y, t)
    ensures Spliced(s, z, y, t).nodes[z]
      == s.nodes[z].(left := s.sentinel, right := s.sentinel, parent := s.sentinel, key := 0)
  {
    if y != z {
      SuccHasRoles(s, z, y, t);
      SuccRelinkedAt(s, z, y, t, z);
    } else {
      SelfAbove(s, z, y, t);
    }
    UnhookedAt(s, z, y, t, z);
    var w := Written(s, z, y, t)[z];
    assert w.color == s.nodes[z].color && w.data == s.nodes[z].data;
  }

  /** One record other than `z`'s after the writes. */
  lemma SplicedAt(s: State, z: Handle, y: Handle, t: Handle, m: Handle)
    requires SpliceCase(s, z, y, t) && y != s.root && SpliceLocal(s, z, y, t) && m < |s.nodes| && m != z
    ensures Moves(s, z, y, t, Spliced(s, z, y, t).nodes[m], m)
  {
    assert Spliced(s, z, y, t).nodes[m] == Written(s, z, y, t)[m];
    if y == z {
      SelfAt(s, z, y, t, m);
    } else {
      SuccHasRoles(s, z, y, t);
      SuccAt(s, z, y, t, m);
    }
  }

  /** The writes leave the records `SplicedOf` describes. */
  lemma SplicedRecordsAre(s: State, z: Handle, y: Handle, t: Handle)
    requires SpliceCase(s, z, y, t) && y != s.root && SpliceLocal(s, z, y, t)
    ensures SplicedRecords(s, z, y, t, Spliced(s, z, y, t))
  {
    var r := Spliced(s, z, y, t);
    SplicedAtZ(s, z, y, t);
    forall m | 0 <= m < |s.nodes| && m != z ensures Moves(s, z, y, t, r.nodes[m], m) {
      SplicedAt(s, z, y, t, m);
    }
  }

  /** The writes of the splice do what `SplicedOf` describes. */
  lemma SplicedIsSplice(s: State, z: Handle, y: Handle, t: Handle)
    requires SpliceCase(s, z, y, t) && y != s.root
    ensures SpliceLocal(s, z, y, t) && SplicedOf(s, z, y, t, Spliced(s, z, y, t))
  {
    CaseLocal(s, z, y, t);
    SplicedBookIs(s, z, y, t);
    SplicedRecordsAre(s, z, y, t);
  }

  // ---------------------------------------------------------------------------
  // The tree after the splice

  /** The splice of a non-root `y` applied to `s` gives `r`. */
  ghost predicate SpliceStep(s: State, z: Handle, y: Handle, t: Handle, r: State)
  {
    SpliceCase(s, z, y, t) && y != s.root && SpliceLocal(s, z, y, t) && SplicedOf(s, z, y, t, r)
  }

  /** `y`'s position is `z`'s, or the next one when `y` is the successor. */
  lemma SuccPos(s: State, z: Handle, y: Handle, t: Handle)
    requires SpliceCase(s, z, y, t)
    ensures y == z || (Linked(s, y) && s.pos[y] == s.pos[z] + 1)
  {
  }

  /** Entry `i` of the new in-order sequence is the old entry `i`, or `i + 1` from `z`'s position on. */
  lemma SpliceEntry(s: State, z: Handle, y: Handle, t: Handle, r: State, i: int)
    requires SpliceStep(s, z, y, t, r) && 0 <= i < |r.order|
    ensures var k := s.pos[z];
      var i' := if i < k then i else i + 1;
      0 <= i' < |s.order| && r.order[i] == s.order[i'] && r.order[i] != z && Linked(s, r.order[i])
      && r.order[i] < |r.nodes| && r.order[i] != r.sentinel && r.pos[r.order[i]] == i
  {
    var k := s.pos[z];
    var i' := if i < k then i else i + 1;
    SuccPos(s, z, y, t);
    assert r.order[i] == s.order[i'];
    LinkedAt(s, i');
  }

  /** A node linked after the splice was linked before and is not `z`. */
  lemma SpliceBack(s: State, z: Handle, y: Handle, t: Handle, r: State, m: Handle)
    requires SpliceStep(s, z, y, t, r) && Linked(r, m)
    ensures Linked(s, m) && m != z
  {
    SpliceEntry(s, z, y, t, r, r.pos[m]);
  }

  /** Every node linked before, other than `z`, is linked after the splice. */
  lemma SpliceForth(s: State, z: Handle, y: Handle, t: Handle, r: State, m: Handle)
    requires SpliceStep(s, z, y, t, r) && Linked(s, m) && m != z
    ensures Linked(r, m)
  {
    var k := s.pos[z];
    var i' := s.pos[m];
    assert i' != k;
    var i := if i' < k then i' else i' - 1;
    SpliceEntry(s, z, y, t, r, i);
  }

  /** The slot range of side `d` of `n`: below or above `n`'s position within its range. */
  ghost function SlotLo(s: State, n: Handle, d: Side): int
    requires Sized(s) && n < |s.nodes|
  {
    if d == Left then s.lo[n] else s.pos[n] + 1
  }

  ghost function SlotHi(s: State, n: Handle, d: Side): int
    requires Sized(s) && n < |s.nodes|
  {
    if d == Left then s.pos[n] else s.hi[n]
  }

  /** A child `c` of the node whose place `m` takes keeps pointing at `m`. */
  lemma PlainUp(s: State, z: Handle, y: Handle, t: Handle, m: Handle, c: Handle)
    requires Sized(s) && z < |s.nodes| && y < |s.nodes| && m < |s.nodes| && c < |s.nodes|
    requires c != z && c != y && m != z && c != s.sentinel && s.nodes[c].parent == Src(z, y, m)
    requires s.nodes[Src(z, y, m)].left == c || s.nodes[Src(z, y, m)].right == c
    requires t != s.sentinel ==> t < |s.nodes| && s.nodes[t].parent == y
    requires y != z ==>
      s.nodes[z].left < |s.nodes| && s.nodes[z].right < |s.nodes|
      && s.nodes[s.nodes[z].left].parent == z && s.nodes[s.nodes[z].right].parent == z
    ensures NewUp(s, z, y, t, c) == m
  {
  }

  /** Removing position `j` keeps a range that holds a position other than `j` non-empty. */
  lemma DownKeeps(l: int, p: int, h: int, j: int)
    requires l <= p < h && p != j
    ensures Down(l, j) <= Down(p, j) < Down(h, j)
  {
  }

  /** What a slot of the node whose place `m` takes holds, when it is neither `z` nor `y`. */
  lemma PlainFacts(s: State, z: Handle, y: Handle, t: Handle, m: Handle, d: Side)
    requires SpliceCase(s, z, y, t) && Linked(s, m) && m != z
    requires var c := Child(s.nodes[Src(z, y, m)], d); c != z && c != y
    ensures var sm := Src(z, y, m);
      var c := Child(s.nodes[sm], d);
      c < |s.nodes| && (c == s.sentinel <==> SlotLo(s, sm, d) == SlotHi(s, sm, d))
      && (c != s.sentinel ==>
            Linked(s, c) && s.lo[c] == SlotLo(s, sm, d) && s.hi[c] == SlotHi(s, sm, d)
            && s.lo[c] <= s.pos[c] < s.hi[c] && s.pos[c] != s.pos[y] && NewUp(s, z, y, t, c) == m)
  {
    var sm := Src(z, y, m);
    var c := Child(s.nodes[sm], d);
    SuccPos(s, z, y, t);
    assert Linked(s, sm);
    assert NodeOk(s, sm);
    if c != s.sentinel {
      Kid(s, sm, c);
      assert NodeOk(s, c);
      if t != s.sentinel {
        Kid(s, y, t);
      }
      if y != z {
        Kid(s, z, s.nodes[z].left);
        Kid(s, z, s.nodes[z].right);
      }
      PlainUp(s, z, y, t, m, c);
    }
  }

  /** A slot that held neither `z` nor `y` holds the same subtree, with its range moved down. */
  lemma SlotPlain(s: State, z: Handle, y: Handle, t: Handle, r: State, m: Handle, d: Side)
    requires SpliceStep(s, z, y, t, r) && Linked(s, m) && m != z
    requires var c := Child(s.nodes[Src(z, y, m)], d); c != z && c != y
    ensures Sized(r) && m < |r.nodes|
    ensures var sm := Src(z, y, m);
      SlotOk(r, Child(r.nodes[m], d), Down(SlotLo(s, sm, d), s.pos[y]), Down(SlotHi(s, sm, d), s.pos[y]), m)
  {
    var sm := Src(z, y, m);
    var c := Child(s.nodes[sm], d);
    var j := s.pos[y];
    PlainFacts(s, z, y, t, m, d);
    assert Moves(s, z, y, t, r.nodes[m], m);
    if c != s.sentinel {
      SpliceForth(s, z, y, t, r, c);
      assert Moves(s, z, y, t, r.nodes[c], c);
      assert r.lo[c] == Down(s.lo[c], j) && r.hi[c] == Down(s.hi[c], j);
      DownKeeps(s.lo[c], s.pos[c], s.hi[c], j);
    }
  }

  /** The slot that held `z` belongs to `z`'s parent and covers `z`'s range. */
  lemma ZFacts(s: State, z: Handle, y: Handle, t: Handle, m: Handle, d: Side)
    requires SpliceCase(s, z, y, t) && Linked(s, m) && m != z && Child(s.nodes[Src(z, y, m)], d) == z
    ensures Src(z, y, m) == m && z != s.root && m == s.nodes[z].parent
    ensures SlotLo(s, m, d) == s.lo[z] && SlotHi(s, m, d) == s.hi[z] && s.lo[z] <= s.pos[z] < s.hi[z]
    ensures y == z ==>
      t < |s.nodes| && (t == s.sentinel <==> s.hi[z] - s.lo[z] == 1) && NewUp(s, z, y, t, t) == m
      && (t != s.sentinel ==>
            Linked(s, t) && Down(s.lo[t], s.pos[z]) == s.lo[z] && Down(s.hi[t], s.pos[z]) == s.hi[z] - 1)
    ensures y != z ==> Linked(s, y) && y != t && s.pos[y] == s.pos[z] + 1 && NewUp(s, z, y, t, y) == m
  {
    var sm := Src(z, y, m);
    assert Linked(s, sm);
    Kid(s, sm, z);
    Above(s, z);
    assert NodeOk(s, m);
    if y == z {
      SelfFacts(s, z, y, t);
    } else {
      SuccFacts(s, z, y, t);
    }
  }

  /** The slot that held the successor `y` covers `y`'s range and belongs to the node that gets `t` as a child. */
  lemma YFacts(s: State, z: Handle, y: Handle, t: Handle, m: Handle, d: Side)
    requires SpliceCase(s, z, y, t) && Linked(s, m) && m != z && y != z && Child(s.nodes[Src(z, y, m)], d) == y
    ensures var j := s.pos[y];
      var sm := Src(z, y, m);
      SlotLo(s, sm, d) == j && SlotHi(s, sm, d) == s.hi[y] && j < s.hi[y] && t < |s.nodes|
      && (t == s.sentinel <==> s.hi[y] == j + 1) && NewUp(s, z, y, t, t) == m
      && (t != s.sentinel ==> Linked(s, t) && t != z && s.lo[t] == j + 1 && s.hi[t] == s.hi[y])
  {
    var sm := Src(z, y, m);
    assert Linked(s, sm);
    Kid(s, sm, y);
    SuccFacts(s, z, y, t);
    assert NodeOk(s, sm);
  }

  /** The slot that held `z` holds `t` (with an empty slot) or `y`, covering `z`'s range without `z`. */
  lemma SlotAtZ(s: State, z: Handle, y: Handle, t: Handle, r: State, m: Handle, d: Side)
    requires SpliceStep(s, z, y, t, r) && Linked(s, m) && m != z && Child(s.nodes[Src(z, y, m)], d) == z
    ensures Sized(r) && m < |r.nodes|
    ensures var sm := Src(z, y, m);
      SlotOk(r, Child(r.nodes[m], d), Down(SlotLo(s, sm, d), s.pos[y]), Down(SlotHi(s, sm, d), s.pos[y]), m)
  {
    ZFacts(s, z, y, t, m, d);
    assert Moves(s, z, y, t, r.nodes[m], m);
    var j := s.pos[y];
    if y == z {
      if t != s.sentinel {
        SpliceForth(s, z, y, t, r, t);
        assert Moves(s, z, y, t, r.nodes[t], t);
      }
    } else {
      SpliceForth(s, z, y, t, r, y);
      assert Moves(s, z, y, t, r.nodes[y], y);
      DownKeeps(s.lo[z], s.pos[z], s.hi[z], j);
    }
  }

  /** The slot that held the successor `y` holds `t`, covering `y`'s range without `y`. */
  lemma SlotAtY(s: State, z: Handle, y: Handle, t: Handle, r: State, m: Handle, d: Side)
    requires SpliceStep(s, z, y, t, r) && Linked(s, m) && m != z && y != z && Child(s.nodes[Src(z, y, m)], d) == y
    ensures Sized(r) && m < |r.nodes|
    ensures var sm := Src(z, y, m);
      SlotOk(r, Child(r.nodes[m], d), Down(SlotLo(s, sm, d), s.pos[y]), Down(SlotHi(s, sm, d), s.pos[y]), m)
  {
    YFacts(s, z, y, t, m, d);
    assert Moves(s, z, y, t, r.nodes[m], m);
    if t != s.sentinel {
      SpliceForth(s, z, y, t, r, t);
      assert Moves(s, z, y, t, r.nodes[t], t);
    }
  }

  /** `t`'s new parent holds, after the splice, `t` in the slot that held `z` or `y`. */
  lemma UpAtT(s: State, z: Handle, y: Handle, t: Handle)
    requires SpliceCase(s, z, y, t) && y != s.root && t != s.sentinel && t < |s.nodes|
    ensures var q := NewUp(s, z, y, t, t);
      q < |s.nodes| && Linked(s, q) && q != z
      && (Repl(z, y, t, s.nodes[Src(z, y, q)].left) == t || Repl(z, y, t, s.nodes[Src(z, y, q)].right) == t)
  {
    if y == z {
      SelfAbove(s, z, y, t);
    } else {
      SuccFacts(s, z, y, t);
    }
  }

  /** The successor's new parent is `z`'s parent, which holds it in `z`'s slot. */
  lemma UpAtY(s: State, z: Handle, y: Handle, t: Handle)
    requires SpliceCase(s, z, y, t) && y != z && z != s.root
    ensures var q := NewUp(s, z, y, t, y);
      q < |s.nodes| && Linked(s, q) && q != z
      && (Repl(z, y, t, s.nodes[Src(z, y, q)].left) == y || Repl(z, y, t, s.nodes[Src(z, y, q)].right) == y)
  {
    SuccFacts(s, z, y, t);
    SuccAbove(s, z, y, t);
  }

  /** `z`'s other children hang below the successor, which takes `z`'s links. */
  lemma UpAtKid(s: State, z: Handle, y: Handle, t: Handle, m: Handle)
    requires SpliceCase(s, z, y, t) && y != z && m < |s.nodes| && m != y && (m == s.nodes[z].left || m == s.nodes[z].right)
    ensures var q := NewUp(s, z, y, t, m);
      q < |s.nodes| && Linked(s, q) && q != z
      && (Repl(z, y, t, s.nodes[Src(z, y, q)].left) == m || Repl(z, y, t, s.nodes[Src(z, y, q)].right) == m)
  {
    SuccFacts(s, z, y, t);
  }

  /** Every other node keeps its parent, which was neither `z` nor `y`. */
  lemma UpElse(s: State, z: Handle, y: Handle, t: Handle, m: Handle)
    requires SpliceCase(s, z, y, t) && Linked(s, m) && m != z && m != t && m != s.root
    requires y != z ==> m != y && m != s.nodes[z].left && m != s.nodes[z].right
    ensures var q := NewUp(s, z, y, t, m);
      q < |s.nodes| && Linked(s, q) && q != z
      && (Repl(z, y, t, s.nodes[Src(z, y, q)].left) == m || Repl(z, y, t, s.nodes[Src(z, y, q)].right) == m)
  {
    assert NodeOk(s, m) && UpOk(s, m);
    var q := s.nodes[m].parent;
    assert q != z;
    if y != z {
      assert Linked(s, y);
      assert q != y;
    }
  }

  /** The new parent of a linked node other than the new root is a linked node that gets it as a child. */
  lemma UpFacts(s: State, z: Handle, y: Handle, t: Handle, m: Handle)
    requires SpliceCase(s, z, y, t) && y != s.root && Linked(s, m) && m != z && m != Repl(z, y, t, s.root)
    ensures var q := NewUp(s, z, y, t, m);
      q < |s.nodes| && Linked(s, q) && q != z
      && (Repl(z, y, t, s.nodes[Src(z, y, q)].left) == m || Repl(z, y, t, s.nodes[Src(z, y, q)].right) == m)
  {
    if m == t {
      UpAtT(s, z, y, t);
    } else if y != z && m == y {
      UpAtY(s, z, y, t);
    } else if y != z && (m == s.nodes[z].left || m == s.nodes[z].right) {
      UpAtKid(s, z, y, t, m);
    } else {
      UpElse(s, z, y, t, m);
    }
  }

  /** After the splice every linked node other than the root hangs below its parent link. */
  lemma SpliceUp(s: State, z: Handle, y: Handle, t: Handle, r: State, m: Handle)
    requires SpliceStep(s, z, y, t, r) && Linked(s, m) && m != z && m != r.root
    ensures Sized(r) && m < |r.nodes| && UpOk(r, m)
  {
    UpFacts(s, z, y, t, m);
    var q := NewUp(s, z, y, t, m);
    assert Moves(s, z, y, t, r.nodes[m], m);
    SpliceForth(s, z, y, t, r, q);
    assert Moves(s, z, y, t, r.nodes[q], q);
  }

  /** `m`'s range after the splice is its source's range moved down, still around its position. */
  lemma SpliceRanges(s: State, z: Handle, y: Handle, t: Handle, r: State, m: Handle)
    requires SpliceStep(s, z, y, t, r) && Linked(s, m) && m != z
    ensures Sized(r) && m < |r.nodes|
    ensures 0 <= r.lo[m] <= r.pos[m] < r.hi[m] <= |r.order|
    ensures var sm := Src(z, y, m);
      sm < |s.nodes| && Linked(s, sm) && r.lo[m] == Down(s.lo[sm], s.pos[y])
      && r.pos[m] == Down(s.pos[sm], s.pos[y]) && r.pos[m] + 1 == Down(s.pos[sm] + 1, s.pos[y])
      && r.hi[m] == Down(s.hi[sm], s.pos[y])
  {
    var sm := Src(z, y, m);
    var j := s.pos[y];
    SuccPos(s, z, y, t);
    assert Linked(s, sm) && NodeOk(s, sm);
    assert s.pos[sm] != j;
    DownKeeps(s.lo[sm], s.pos[sm], s.hi[sm], j);
  }

  /** Side `d` of `m` after the splice holds the subtree of its source's side `d`, with `z` and `y` replaced. */
  lemma SpliceSlot(s: State, z: Handle, y: Handle, t: Handle, r: State, m: Handle, d: Side)
    requires SpliceStep(s, z, y, t, r) && Linked(s, m) && m != z
    ensures Sized(r) && m < |r.nodes|
    ensures var sm := Src(z, y, m);
      SlotOk(r, Child(r.nodes[m], d), Down(SlotLo(s, sm, d), s.pos[y]), Down(SlotHi(s, sm, d), s.pos[y]), m)
  {
    var c := Child(s.nodes[Src(z, y, m)], d);
    if c == z {
      SlotAtZ(s, z, y, t, r, m, d);
    } else if c == y {
      SlotAtY(s, z, y, t, r, m, d);
    } else {
      SlotPlain(s, z, y, t, r, m, d);
    }
  }

  /** Every node linked after the splice is well formed. */
  lemma SpliceNodeOk(s: State, z: Handle, y: Handle, t: Handle, r: State, m: Handle)
    requires SpliceStep(s, z, y, t, r) && Linked(r, m)
    ensures Sized(r) && m < |r.nodes| && NodeOk(r, m)
  {
    SpliceBack(s, z, y, t, r, m);
    SpliceRanges(s, z, y, t, r, m);
    SpliceSlot(s, z, y, t, r, m, Left);
    SpliceSlot(s, z, y, t, r, m, Right);
    if m != r.root {
      SpliceUp(s, z, y, t, r, m);
    }
  }

  /** The root after the splice is a linked node covering the whole shortened in-order walk. */
  lemma SpliceRoot(s: State, z: Handle, y: Handle, t: Handle, r: State)
    requires SpliceStep(s, z, y, t, r)
    ensures Sized(r) && |r.order| == |s.order| - 1 && r.root != r.sentinel
    ensures Linked(r, r.root) && r.lo[r.root] == 0 && r.hi[r.root] == |r.order|
  {
    assert Linked(s, s.root) && s.root != z ==> s.pos[s.root] != s.pos[z];
    if z == s.root {
      SuccFacts(s, z, y, t);
    }
    SpliceForth(s, z, y, t, r, r.root);
    SpliceRanges(s, z, y, t, r, r.root);
  }

  /** Splicing a node out of a tree of two or more nodes leaves a tree whose in-order walk lacks just that node. */
  lemma SpliceShape(s: State, z: Handle, y: Handle, t: Handle, r: State)
    requires SpliceStep(s, z, y, t, r)
    ensures Shape(r) && r.root != r.sentinel && |r.order| == |s.order| - 1
  {
    forall i | 0 <= i < |r.order|
      ensures r.order[i] < |r.nodes| && r.order[i] != r.sentinel && r.pos[r.order[i]] == i
    {
      SpliceEntry(s, z, y, t, r, i);
    }
    SpliceRoot(s, z, y, t, r);
    forall n | Linked(r, n)
      ensures NodeOk(r, n)
    {
      SpliceNodeOk(s, z, y, t, r, n);
    }
  }

  // ---------------------------------------------------------------------------
  // Colours and black heights after the splice

  /** The node taken out of its slot, `y`, has the sentinel on one side and `t` on the other. */
  lemma GoneFacts(s: State, z: Handle, y: Handle, t: Handle)
    requires SpliceCase(s, z, y, t) && RedBlack(s)
    ensures y < |s.nodes| && Linked(s, y) && y != s.sentinel && t < |s.nodes| && t != y && t != z
    ensures t != s.sentinel ==> Linked(s, t)
    ensures BH(s, t) == s.bh[y] && BH(s, y) == s.bh[y] + (if Red(s.nodes[y]) then 0 else 1)
    ensures Red(s.nodes[y]) ==> !Red(s.nodes[t])
  {
    if y == z {
      SelfFacts(s, z, y, t);
    } else {
      SuccFacts(s, z, y, t);
    }
    assert Balanced(s, y) && RedOk(s, y);
  }

  /** The slot `m` takes over from the slot that held `y` holds `t`, one black level lower if `y` was black. */
  lemma BHAtGone(s: State, z: Handle, y: Handle, t: Handle, r: State, m: Handle, d: Side)
    requires SpliceStep(s, z, y, t, r) && RedBlack(s) && Linked(s, m) && m != z
    requires Child(s.nodes[Src(z, y, m)], d) == y
    ensures Sized(r) && m < |r.nodes|
    ensures var rc := Child(r.nodes[m], d);
      rc == t && rc < |r.nodes| && BH(r, rc) == BH(s, y) - (if Red(s.nodes[y]) then 0 else 1)
      && r.nodes[rc].color == s.nodes[t].color
  {
    assert Moves(s, z, y, t, r.nodes[m], m);
    GoneFacts(s, z, y, t);
    assert Moves(s, z, y, t, r.nodes[t], t);
  }

  /** The slot that held `z`, when `y` is its successor, holds `y` with `z`'s colour and black height. */
  lemma BHAtZ(s: State, z: Handle, y: Handle, t: Handle, r: State, m: Handle, d: Side)
    requires SpliceStep(s, z, y, t, r) && Linked(s, m) && m != z && y != z
    requires Child(s.nodes[Src(z, y, m)], d) == z
    ensures Sized(r) && m < |r.nodes|
    ensures var rc := Child(r.nodes[m], d);
      rc < |r.nodes| && BH(r, rc) == BH(s, z) && r.nodes[rc].color == s.nodes[z].color
  {
    assert Moves(s, z, y, t, r.nodes[m], m);
    assert Moves(s, z, y, t, r.nodes[y], y);
  }

  /** A slot that held neither `z` nor `y` holds the same node, with its colour and black height. */
  lemma BHPlain(s: State, z: Handle, y: Handle, t: Handle, r: State, m: Handle, d: Side)
    requires SpliceStep(s, z, y, t, r) && Linked(s, m) && m != z
    requires var c := Child(s.nodes[Src(z, y, m)], d); c != z && c != y
    ensures Sized(r) && m < |r.nodes|
    ensures var c := Child(s.nodes[Src(z, y, m)], d);
      var rc := Child(r.nodes[m], d);
      c < |s.nodes| && rc == c && BH(r, rc) == BH(s, c) && r.nodes[rc].color == s.nodes[c].color
  {
    var c := Child(s.nodes[Src(z, y, m)], d);
    assert Linked(s, Src(z, y, m)) && NodeOk(s, Src(z, y, m));
    assert Moves(s, z, y, t, r.nodes[m], m);
    assert s.sentinel != z;
    assert Moves(s, z, y, t, r.nodes[c], c);
  }

  /**
   * Side `d` of `m` after the splice has the black height of its source's
   * side `d`, one less where that side held a black `y`; and the colour of
   * what the source's side held, or of `t` where it held `y`.
   */
  lemma SpliceBH(s: State, z: Handle, y: Handle, t: Handle, r: State, m: Handle, d: Side)
    requires SpliceStep(s, z, y, t, r) && RedBlack(s) && Linked(s, m) && m != z
    ensures Sized(r) && m < |r.nodes| && Src(z, y, m) < |s.nodes|
    ensures r.bh[m] == s.bh[Src(z, y, m)] && r.nodes[m].color == s.nodes[Src(z, y, m)].color
    ensures var c := Child(s.nodes[Src(z, y, m)], d);
      var rc := Child(r.nodes[m], d);
      c < |s.nodes| && rc < |r.nodes| && (c == y ==> rc == t) && (c != y && c != z ==> rc == c)
      && BH(r, rc) == BH(s, c) - (if c == y && !Red(s.nodes[y]) then 1 else 0)
      && r.nodes[rc].color == s.nodes[if c == y then t else c].color
  {
    var sm := Src(z, y, m);
    var c := Child(s.nodes[sm], d);
    assert Linked(s, sm) && NodeOk(s, sm);
    assert Moves(s, z, y, t, r.nodes[m], m);
    if c == y {
      BHAtGone(s, z, y, t, r, m, d);
    } else if c == z {
      BHAtZ(s, z, y, t, r, m, d);
    } else {
      BHPlain(s, z, y, t, r, m, d);
    }
  }

  /** Only the node that gets `t` in place of `y` had `y` as a child. */
  lemma ParentOfGone(s: State, z: Handle, y: Handle, t: Handle, m: Handle)
    requires SpliceCase(s, z, y, t) && Linked(s, m) && m != z
    requires var sm := Src(z, y, m); s.nodes[sm].left == y || s.nodes[sm].right == y
    ensures m == NewParent(s, z, y)
  {
    var sm := Src(z, y, m);
    assert Linked(s, sm);
    if y == z {
      SelfFacts(s, z, y, t);
    } else {
      SuccFacts(s, z, y, t);
    }
    Kid(s, sm, y);
  }

  /** Every node other than the new parent of `t` keeps the red-black rules, and that one too when `y` was red. */
  lemma SpliceRules(s: State, z: Handle, y: Handle, t: Handle, r: State, m: Handle)
    requires SpliceStep(s, z, y, t, r) && RedBlack(s) && Linked(s, m) && m != z
    requires m != NewParent(s, z, y) || Red(s.nodes[y])
    ensures Sized(r) && m < |r.nodes| && Balanced(r, m) && RedOk(r, m)
  {
    var sm := Src(z, y, m);
    assert Linked(s, sm) && Balanced(s, sm) && RedOk(s, sm);
    SpliceBH(s, z, y, t, r, m, Left);
    SpliceBH(s, z, y, t, r, m, Right);
    if s.nodes[sm].left == y || s.nodes[sm].right == y {
      ParentOfGone(s, z, y, t, m);
      GoneFacts(s, z, y, t);
    }
  }

  /** The sentinel and the root stay black. */
  lemma SpliceEnds(s: State, z: Handle, y: Handle, t: Handle, r: State)
    requires SpliceStep(s, z, y, t, r) && RedBlack(s)
    ensures Sized(r) && !Red(r.nodes[r.sentinel]) && !Red(r.nodes[r.root])
  {
    assert s.sentinel != z;
    assert Moves(s, z, y, t, r.nodes[s.sentinel], s.sentinel);
    if z == s.root {
      assert Moves(s, z, y, t, r.nodes[y], y);
    } else {
      assert Moves(s, z, y, t, r.nodes[s.root], s.root);
    }
  }

  /** Taking out a red node leaves a red-black tree. */
  lemma SpliceRed(s: State, z: Handle, y: Handle, t: Handle, r: State)
    requires SpliceStep(s, z, y, t, r) && RedBlack(s) && Red(s.nodes[y])
    ensures RedBlack(r)
  {
    SpliceShape(s, z, y, t, r);
    SpliceEnds(s, z, y, t, r);
    forall n | Linked(r, n)
      ensures Balanced(r, n) && RedOk(r, n)
    {
      SpliceBack(s, z, y, t, r, n);
      SpliceRules(s, z, y, t, r, n);
    }
  }

  /** The new parent of `t` is linked and, in the source's slot that held `y`, now holds `t`. */
  lemma NewParentFacts(s: State, z: Handle, y: Handle, t: Handle) returns (d: Side)
    requires SpliceCase(s, z, y, t) && y != s.root
    ensures var p := NewParent(s, z, y);
      p < |s.nodes| && Linked(s, p) && p != z && p != t && Child(s.nodes[Src(z, y, p)], d) == y
  {
    var p := NewParent(s, z, y);
    if y == z {
      SelfFacts(s, z, y, t);
      Above(s, z);
      d := SideOf(s.nodes[p], z);
    } else {
      SuccFacts(s, z, y, t);
      d := if p == y then Right else Left;
    }
  }

  /** A slot one black level below its parent's height, beside a sibling at that height, is short. */
  lemma ShortBy(r: State, t: Handle, p: Handle, d: Side)
    requires Sized(r) && t < |r.nodes| && p < |r.nodes| && Linked(r, p) && r.nodes[t].parent == p
    requires Child(r.nodes[p], d) == t && Child(r.nodes[p], Flip(d)) < |r.nodes|
    requires BH(r, t) + 1 == r.bh[p] && BH(r, Child(r.nodes[p], Flip(d))) == r.bh[p]
    requires Red(r.nodes[p]) ==> !Red(r.nodes[Child(r.nodes[p], Flip(d))])
    ensures Short(r, t)
  {
  }

  /** Taking out a black node leaves the slot of `t` one black level short. */
  lemma SpliceShort(s: State, z: Handle, y: Handle, t: Handle, r: State)
    requires SpliceStep(s, z, y, t, r) && RedBlack(s) && !Red(s.nodes[y])
    ensures Sized(r) && t < |r.nodes| && r.nodes[t].parent == NewParent(s, z, y) && Short(r, t)
  {
    var d := NewParentFacts(s, z, y, t);
    var p := NewParent(s, z, y);
    var sp := Src(z, y, p);
    assert s.sentinel != z && t != z;
    assert Moves(s, z, y, t, r.nodes[t], t);
    SpliceForth(s, z, y, t, r, p);
    assert Linked(s, sp) && NodeOk(s, sp) && Balanced(s, sp) && RedOk(s, sp);
    SpliceBH(s, z, y, t, r, p, d);
    SpliceBH(s, z, y, t, r, p, Flip(d));
    ShortBy(r, t, p, d);
  }

  /** Taking out a black node keeps the rules at every node but `t` and its new parent. */
  lemma SpliceBlackOthers(s: State, z: Handle, y: Handle, t: Handle, r: State)
    requires SpliceStep(s, z, y, t, r) && RedBlack(s) && !Red(s.nodes[y])
    ensures Sized(r) && t < |r.nodes|
    ensures forall n {:trigger Balanced(r, n)} {:trigger RedOk(r, n)} ::
      Linked(r, n) && n != t && n != r.nodes[t].parent ==> Balanced(r, n) && RedOk(r, n)
  {
    GoneFacts(s, z, y, t);
    assert Moves(s, z, y, t, r.nodes[t], t);
    forall n | Linked(r, n) && n != t && n != r.nodes[t].parent
      ensures Balanced(r, n) && RedOk(r, n)
    {
      SpliceBack(s, z, y, t, r, n);
      SpliceRules(s, z, y, t, r, n);
    }
  }

  /** `t` is not the root after the splice, and keeps the rules itself if it is a node. */
  lemma SpliceBlackT(s: State, z: Handle, y: Handle, t: Handle, r: State)
    requires SpliceStep(s, z, y, t, r) && RedBlack(s) && !Red(s.nodes[y])
    ensures Sized(r) && t < |r.nodes| && t != r.root
    ensures t != r.sentinel ==> Linked(r, t) && Balanced(r, t)
  {
    var _ := NewParentFacts(s, z, y, t);
    GoneFacts(s, z, y, t);
    SpliceRoot(s, z, y, t, r);
    if t != s.sentinel {
      SpliceForth(s, z, y, t, r, t);
      SpliceRules(s, z, y, t, r, t);
      if y == z {
        SelfFacts(s, z, y, t);
      } else {
        SuccFacts(s, z, y, t);
      }
      RootNotChild(s, y);
    }
  }

  /** The loop invariant of the delete fixup, from its parts. */
  lemma DelFixBy(r: State, t: Handle)
    requires Shape(r) && !Red(r.nodes[r.sentinel]) && !Red(r.nodes[r.root]) && t < |r.nodes| && t != r.root
    requires t != r.sentinel ==> Linked(r, t) && Balanced(r, t)
    requires Short(r, t)
    requires forall n {:trigger Balanced(r, n)} {:trigger RedOk(r, n)} ::
      Linked(r, n) && n != t && n != r.nodes[t].parent ==> Balanced(r, n) && RedOk(r, n)
    ensures DelFix(r, t)
  {
  }

  /** Taking out a black node leaves the state the delete fixup loop starts from. */
  lemma SpliceBlack(s: State, z: Handle, y: Handle, t: Handle, r: State)
    requires SpliceStep(s, z, y, t, r) && RedBlack(s) && !Red(s.nodes[y])
    ensures DelFix(r, t)
  {
    SpliceShape(s, z, y, t, r);
    SpliceEnds(s, z, y, t, r);
    SpliceShort(s, z, y, t, r);
    SpliceBlackOthers(s, z, y, t, r);
    SpliceBlackT(s, z, y, t, r);
    DelFixBy(r, t);
  }

  // ---------------------------------------------------------------------------
  // Keys after the splice

  /** The splice keeps every key in order: the walk loses exactly `z`'s entry. */
  lemma SpliceKeys(s: State, z: Handle, y: Handle, t: Handle, r: State, p: Policy, base: Key)
    requires SpliceStep(s, z, y, t, r)
    ensures Shape(r) && |r.order| == |s.order| - 1
    ensures forall i :: 0 <= i < |r.order| ==> KeyAt(r, i) == KeyAt(s, if i < s.pos[z] then i else i + 1)
    ensures Sorted(s, p) ==> Sorted(r, p)
    ensures AllInWindow(s, p, base) ==> AllInWindow(r, p, base)
  {
    SpliceShape(s, z, y, t, r);
    var k := s.pos[z];
    forall i | 0 <= i < |r.order|
      ensures KeyAt(r, i) == KeyAt(s, if i < k then i else i + 1)
    {
      SpliceEntry(s, z, y, t, r, i);
      assert Moves(s, z, y, t, r.nodes[r.order[i]], r.order[i]);
    }
  }

  /** A node whose entry leaves the in-order walk is no longer linked. */
  lemma Unlinked(s: State, z: Handle, r: State)
    requires Shape(s) && Linked(s, z) && r.order == s.order[..s.pos[z]] + s.order[s.pos[z] + 1..]
    ensures !Linked(r, z)
  {
    if Linked(r, z) {
      var i := r.pos[z];
      var i' := if i < s.pos[z] then i else i + 1;
      LinkedAt(s, i');
    }
  }

  /** A record the splice leaves as it was: a record outside the tree other than the sentinel. */
  lemma SpliceOutside(s: State, z: Handle, y: Handle, t: Handle, r: State, m: Handle)
    requires SpliceStep(s, z, y, t, r) && m < |s.nodes| && m != s.sentinel && !Linked(s, m)
    ensures r.nodes[m] == s.nodes[m] && m !in r.order
  {
    assert NodeOk(s, z);
    if y == z {
      SelfFacts(s, z, y, t);
    } else {
      SuccFacts(s, z, y, t);
    }
    LinkedIsIn(s, m);
    assert m != z && m != y;
    assert Moves(s, z, y, t, r.nodes[m], m);
    forall j | 0 <= j < |r.order|
      ensures r.order[j] != m
    {
      SpliceEntry(s, z, y, t, r, j);
    }
  }

  /**
   * The splice followed by steps that keep the frame of the new tree
   * changes no data byte and no record outside the old tree but `z` and
   * the sentinel.
   */
  lemma SpliceFrame(s: State, z: Handle, y: Handle, t: Handle, s1: State, r: State)
    requires SpliceStep(s, z, y, t, s1) && r.order == s1.order && Framed(s1, r)
    ensures forall m :: 0 <= m < |s.nodes| ==> r.nodes[m].data == s.nodes[m].data
    ensures forall m :: 0 <= m < |s.nodes| && m != z && m != s.sentinel && !Linked(s, m) ==> r.nodes[m] == s.nodes[m]
  {
    forall m | 0 <= m < |s.nodes|
      ensures r.nodes[m].data == s.nodes[m].data
    {
      if m != z {
        assert Moves(s, z, y, t, s1.nodes[m], m);
      }
    }
    forall m | 0 <= m < |s.nodes| && m != z && m != s.sentinel && !Linked(s, m)
      ensures r.nodes[m] == s.nodes[m]
    {
      SpliceOutside(s, z, y, t, s1, m);
    }
  }
}
