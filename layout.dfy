/**
 * The node records of an intrusive red-black tree and the invariants
 * that make a set of records a red-black tree.
 *
 * The C tree links caller-owned records by pointer. Here the records live
 * in a sequence and a pointer is a handle, an index into that sequence.
 * One handle is the sentinel: every empty child slot points at it.
 *
 * The shape of the tree is described by ghost bookkeeping: `order` is the
 * in-order sequence of linked handles, and for every linked handle `n`,
 * `pos[n]` is its index in `order` and `[lo[n], hi[n])` the range of
 * `order` its subtree covers. `bh[n]` is the black height below `n`.
 * Every invariant is then a fact about one node and its neighbours.
 */
module Layout {
  import opened Keys

  /** An index into the node records; it stands for a node pointer. */
  type Handle = nat

  /** Which child slot of a node; insert and delete come in two mirror images. */
  datatype Side = Left | Right

  function Flip(d: Side): (r: Side)
    ensures r != d
  {
    if d == Left then Right else Left
  }

  /** `ngx_rbtree_node_t`: key, three links, colour byte (0 black, 1 red), spare byte. */
  datatype Node = Node(key: Key, left: Handle, right: Handle, parent: Handle, color: Byte, data: Byte)

  function Child(nd: Node, d: Side): Handle
  {
    if d == Left then nd.left else nd.right
  }

  function WithChild(nd: Node, d: Side, c: Handle): (r: Node)
    ensures Child(r, d) == c && Child(r, Flip(d)) == Child(nd, Flip(d))
    ensures r.parent == nd.parent && r.key == nd.key && r.color == nd.color && r.data == nd.data
  {
    if d == Left then nd.(left := c) else nd.(right := c)
  }

  /** The side on which `c` hangs below `nd`: `Left` if it is the left child, else `Right`. */
  function SideOf(nd: Node, c: Handle): (d: Side)
    ensures nd.left == c || nd.right == c ==> Child(nd, d) == c
    ensures d == Right ==> nd.left != c
  {
    if nd.left == c then Left else Right
  }

  /** `ngx_rbt_is_red`: any non-zero colour byte reads as red. */
  predicate Red(nd: Node)
  {
    nd.color != 0
  }

  /** The node records, the tree's root and sentinel, and the ghost bookkeeping. */
  datatype State = State(nodes: seq<Node>, root: Handle, sentinel: Handle,
                         order: seq<Handle>, pos: seq<int>, lo: seq<int>, hi: seq<int>, bh: seq<int>)

  ghost predicate Sized(s: State)
  {
    |s.pos| == |s.nodes| && |s.lo| == |s.nodes| && |s.hi| == |s.nodes| && |s.bh| == |s.nodes|
    && s.sentinel < |s.nodes| && s.root < |s.nodes|
  }

  /** `n` is linked into the tree: it occurs in the in-order sequence. */
  ghost predicate Linked(s: State, n: Handle)
  {
    n < |s.nodes| && n < |s.pos| && 0 <= s.pos[n] < |s.order| && s.order[s.pos[n]] == n
  }

  /**
   * Child slot `c` of node `p` holds the subtree covering `order[l..h]`:
   * the sentinel when that range is empty, else a linked node with that
   * range whose parent link points back at `p`.
   */
  ghost predicate SlotOk(s: State, c: Handle, l: int, h: int, p: Handle)
    requires Sized(s)
  {
    c < |s.nodes| && (c == s.sentinel <==> l == h)
    && (c != s.sentinel ==> Linked(s, c) && s.lo[c] == l && s.hi[c] == h && s.nodes[c].parent == p)
  }

  /** The parent link of a linked non-root node points at a node that has it as a child. */
  ghost predicate UpOk(s: State, n: Handle)
    requires Sized(s) && n < |s.nodes|
  {
    var p := s.nodes[n].parent;
    p < |s.nodes| && Linked(s, p) && (s.nodes[p].left == n || s.nodes[p].right == n)
  }

  ghost predicate NodeOk(s: State, n: Handle)
    requires Sized(s) && n < |s.nodes|
  {
    var nd := s.nodes[n];
    0 <= s.lo[n] <= s.pos[n] < s.hi[n] <= |s.order|
    && SlotOk(s, nd.left, s.lo[n], s.pos[n], n)
    && SlotOk(s, nd.right, s.pos[n] + 1, s.hi[n], n)
    && (n != s.root ==> UpOk(s, n))
  }

  /**
   * The links form one binary tree whose in-order walk is `order`: no
   * handle twice, never the sentinel, the root covering all of `order`
   * (or the root is the sentinel and the tree is empty).
   */
  ghost predicate Shape(s: State)
  {
    Sized(s)
    && (forall i :: 0 <= i < |s.order| ==>
          s.order[i] < |s.nodes| && s.order[i] != s.sentinel && s.pos[s.order[i]] == i)
    && (s.root == s.sentinel <==> |s.order| == 0)
    && (s.root != s.sentinel ==> Linked(s, s.root) && s.lo[s.root] == 0 && s.hi[s.root] == |s.order|)
    && (forall n {:trigger NodeOk(s, n)} :: Linked(s, n) ==> NodeOk(s, n))
  }

  /** Black nodes on a path from the slot `c` down to the sentinel, counting `c` itself. */
  ghost function BH(s: State, c: Handle): int
    requires Sized(s) && c < |s.nodes|
  {
    if c == s.sentinel then 0 else s.bh[c] + (if Red(s.nodes[c]) then 0 else 1)
  }

  /** Both children of `n` have black height `bh[n]`. */
  ghost predicate Balanced(s: State, n: Handle)
    requires Sized(s) && n < |s.nodes|
  {
    var nd := s.nodes[n];
    nd.left < |s.nodes| && nd.right < |s.nodes|
    && 0 <= s.bh[n] && BH(s, nd.left) == s.bh[n] && BH(s, nd.right) == s.bh[n]
  }

  /** A red node has black children. */
  ghost predicate RedOk(s: State, n: Handle)
    requires Sized(s) && n < |s.nodes|
  {
    var nd := s.nodes[n];
    nd.left < |s.nodes| && nd.right < |s.nodes|
    && (Red(nd) ==> !Red(s.nodes[nd.left]) && !Red(s.nodes[nd.right]))
  }

  /** The red-black rules: sentinel and root black, no red-red edge, equal black heights. */
  ghost predicate RedBlack(s: State)
  {
    Shape(s)
    && !Red(s.nodes[s.sentinel]) && !Red(s.nodes[s.root])
    && (forall n {:trigger Balanced(s, n)} {:trigger RedOk(s, n)} :: Linked(s, n) ==> Balanced(s, n) && RedOk(s, n))
  }

  /** The key of the `i`-th node in order. */
  ghost function KeyAt(s: State, i: int): Key
    requires Shape(s) && 0 <= i < |s.order|
  {
    s.nodes[s.order[i]].key
  }

  /** In-order keys never go down under the policy's comparison. */
  ghost predicate Sorted(s: State, p: Policy)
    requires Shape(s)
  {
    forall i, j :: 0 <= i < j < |s.order| ==> !Precedes(p, KeyAt(s, j), KeyAt(s, i))
  }

  /** Everything that holds between public operations. */
  ghost predicate RbInvariant(s: State, p: Policy)
  {
    RedBlack(s) && Sorted(s, p)
  }

  /** All keys of the tree lie in the window above `base`. */
  ghost predicate AllInWindow(s: State, p: Policy, base: Key)
    requires Shape(s)
  {
    forall j :: 0 <= j < |s.order| ==> InWindow(p, base, KeyAt(s, j))
  }

  /** Node `n` lies in the subtree of `m`. */
  ghost predicate InSubtree(s: State, m: Handle, n: Handle)
    requires Sized(s) && m < |s.nodes|
  {
    Linked(s, n) && s.lo[m] <= s.pos[n] < s.hi[m]
  }

  // ---------------------------------------------------------------------------
  // Facts every proof below relies on

  /** A linked node's child is linked, points back at it, and has the child's range. */
  lemma ChildOf(s: State, n: Handle, d: Side)
    requires Shape(s) && Linked(s, n) && Child(s.nodes[n], d) != s.sentinel
    ensures var c := Child(s.nodes[n], d);
      Linked(s, c) && s.nodes[c].parent == n && c != n
      && (d == Left ==> s.lo[c] == s.lo[n] && s.hi[c] == s.pos[n])
      && (d == Right ==> s.lo[c] == s.pos[n] + 1 && s.hi[c] == s.hi[n])
  {
    assert NodeOk(s, n);
  }

  /** The black heights are bookkeeping only: changing them keeps the shape. */
  lemma ShapeWithBh(s: State, h: seq<int>)
    requires Shape(s) && |h| == |s.nodes|
    ensures Shape(s.(bh := h))
  {
    var r := s.(bh := h);
    forall n | Linked(r, n) ensures NodeOk(r, n) {
      assert NodeOk(s, n);
      if n != s.root {
        assert UpOk(s, n);
      }
    }
  }

  /** The root is nobody's child: its range is all of `order`, a child's is smaller. */
  lemma RootNotChild(s: State, n: Handle)
    requires Shape(s) && Linked(s, n)
    ensures s.nodes[n].left != s.root && s.nodes[n].right != s.root
  {
    assert NodeOk(s, n);
  }

  /** A parent's subtree is strictly larger than its child's. */
  lemma ParentWider(s: State, n: Handle)
    requires Shape(s) && Linked(s, n) && n != s.root
    ensures var q := s.nodes[n].parent;
      q < |s.nodes| && Linked(s, q) && s.hi[q] - s.lo[q] > s.hi[n] - s.lo[n]
  {
    assert NodeOk(s, n) && UpOk(s, n);
    assert NodeOk(s, s.nodes[n].parent);
  }

  /** Sortedness and the window depend on the in-order keys only. */
  lemma SameKeys(s: State, r: State, p: Policy, base: Key)
    requires Shape(s) && Shape(r) && r.order == s.order && |r.nodes| == |s.nodes|
    requires forall m :: 0 <= m < |s.nodes| ==> r.nodes[m].key == s.nodes[m].key
    ensures forall j :: 0 <= j < |s.order| ==> KeyAt(r, j) == KeyAt(s, j)
    ensures Sorted(r, p) == Sorted(s, p)
    ensures AllInWindow(r, p, base) == AllInWindow(s, p, base)
  {
    assert forall j :: 0 <= j < |s.order| ==> KeyAt(r, j) == KeyAt(s, j);
  }

  /**
   * Every record of `r` keeps its data byte from `s`, and every record
   * outside `s`'s tree, other than the sentinel, is the same in `r`.
   */
  ghost predicate Framed(s: State, r: State)
  {
    |r.nodes| == |s.nodes|
    && (forall m :: 0 <= m < |s.nodes| ==> r.nodes[m].data == s.nodes[m].data)
    && (forall m :: 0 <= m < |s.nodes| && m != s.sentinel && m !in s.order ==> r.nodes[m] == s.nodes[m])
  }

  /** The frame depends on the records only. */
  lemma FramedRecords(s: State, r: State, r2: State)
    requires Framed(s, r) && r2.nodes == r.nodes
    ensures Framed(s, r2)
  {
  }

  /** `r` has the in-order sequence, the sentinel and the keys of `s`. */
  ghost predicate KeysKept(s: State, r: State)
  {
    r.order == s.order && |r.nodes| == |s.nodes| && r.sentinel == s.sentinel
    && forall m :: 0 <= m < |s.nodes| ==> r.nodes[m].key == s.nodes[m].key
  }

  /** Two steps that keep the in-order sequence and the frame keep the frame together. */
  lemma FramedTwice(s1: State, s2: State, s3: State)
    requires Framed(s1, s2) && Framed(s2, s3) && s2.order == s1.order && s2.sentinel == s1.sentinel
    ensures Framed(s1, s3)
  {
  }

  /** In a tree, the linked nodes are exactly the entries of the in-order sequence. */
  lemma LinkedIsIn(s: State, m: Handle)
    requires Shape(s)
    ensures Linked(s, m) <==> m in s.order
  {
    if m in s.order {
      var i :| 0 <= i < |s.order| && s.order[i] == m;
    }
  }

  /** Node `n`'s record is the same in `r` as in `s`. */
  ghost predicate SameNode(s: State, r: State, n: Handle)
  {
    n < |s.nodes| && n < |r.nodes| && r.nodes[n] == s.nodes[n]
  }

  /** Node `c` is linked in `r` too, with the same range and the same parent link. */
  ghost predicate Kept(s: State, r: State, c: Handle)
    requires Sized(s) && Sized(r)
  {
    c < |s.nodes| && c < |r.nodes| && Linked(r, c) && r.lo[c] == s.lo[c] && r.hi[c] == s.hi[c]
    && r.nodes[c].parent == s.nodes[c].parent
  }

  /**
   * A node whose links, position and range are the same in `r`, whose
   * children are kept and whose parent still has it as a child, stays well
   * formed.
   */
  lemma KeptNodeOk(s: State, r: State, m: Handle)
    requires Sized(s) && Sized(r) && |r.nodes| == |s.nodes| && r.sentinel == s.sentinel
    requires |r.order| == |s.order| && m < |s.nodes| && NodeOk(s, m) && (m == s.root <==> m == r.root)
    requires r.nodes[m].left == s.nodes[m].left && r.nodes[m].right == s.nodes[m].right
    requires r.pos[m] == s.pos[m] && Kept(s, r, m)
    requires var nd := s.nodes[m];
      (nd.left != s.sentinel ==> Kept(s, r, nd.left)) && (nd.right != s.sentinel ==> Kept(s, r, nd.right))
    requires var q := s.nodes[m].parent;
      m != s.root ==>
        q < |s.nodes| && Linked(r, q)
        && (s.nodes[q].left == m ==> r.nodes[q].left == m) && (s.nodes[q].right == m ==> r.nodes[q].right == m)
    ensures NodeOk(r, m)
  {
    if m != s.root {
      assert UpOk(s, m);
    }
  }

  /** Distinct positions hold distinct handles. */
  lemma LinkedAt(s: State, i: int)
    requires Shape(s) && 0 <= i < |s.order|
    ensures Linked(s, s.order[i]) && s.pos[s.order[i]] == i
  {
  }

  /** The first node of a subtree holds a key no other key of the subtree precedes. */
  lemma MinFirst(s: State, p: Policy, n: Handle, m: Handle)
    requires Shape(s) && Sorted(s, p) && Linked(s, n) && InSubtree(s, n, m) && s.pos[m] == s.lo[n]
    ensures forall c: Handle :: InSubtree(s, n, c) ==> !Precedes(p, s.nodes[c].key, s.nodes[m].key)
  {
    forall c: Handle | InSubtree(s, n, c) ensures !Precedes(p, s.nodes[c].key, s.nodes[m].key) {
      if s.pos[c] != s.pos[m] {
        assert KeyAt(s, s.pos[c]) == s.nodes[c].key && KeyAt(s, s.pos[m]) == s.nodes[m].key;
      } else {
        assert c == m;
      }
    }
  }
}
