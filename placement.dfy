/**
 * Hanging a new node into an empty child slot, as the placement routines
 * `ngx_rbtree_insert_value` and `ngx_rbtree_insert_timer_value` finish, and
 * the first node of an empty tree, as `ngx_rbtree_insert` places it.
 */
module Placement {
  import opened Keys
  import opened Layout
  import opened Colours
  import opened InsertFixup

  /** A position or range bound after an insertion behind position `t`: those above `t` move up by one. */
  function Up(v: int, t: int): int
  {
    if v > t then v + 1 else v
  }

  /** The unlinked node `node` can be hung into the empty slot on side `side` of `temp`. */
  ghost predicate CanAttach(s: State, temp: Handle, side: Side, node: Handle)
  {
    Shape(s) && Linked(s, temp) && NodeOk(s, temp) && Child(s.nodes[temp], side) == s.sentinel
    && node < |s.nodes| && node != s.sentinel && !Linked(s, node)
  }

  /** What the final writes of placement rely on: `temp` is linked and `node` is another record. */
  ghost predicate AttachLocal(s: State, temp: Handle, node: Handle)
  {
    Sized(s) && Linked(s, temp) && node < |s.nodes| && node != temp
  }

  /** The position in `order` a node hung on side `side` of `temp` takes. */
  ghost function Gap(s: State, temp: Handle, side: Side): int
    requires Sized(s) && temp < |s.nodes|
  {
    if side == Left then s.pos[temp] else s.pos[temp] + 1
  }

  /**
   * `r` is `s` with `node` hung on side `side` of `temp` as a red leaf:
   * it enters `order` at `Gap`, the ranges of the nodes after it and of its
   * ancestors grow by one, and only the records of `temp` and `node` change.
   */
  ghost predicate AttachedOf(s: State, temp: Handle, side: Side, node: Handle, r: State)
    requires AttachLocal(s, temp, node)
  {
    var t := s.pos[temp];
    var i := Gap(s, temp, side);
    |r.nodes| == |s.nodes| && r.root == s.root && r.sentinel == s.sentinel
    && |r.order| == |s.order| + 1 && r.order[i] == node
    && (forall j :: 0 <= j < i ==> r.order[j] == s.order[j])
    && (forall j :: i < j < |r.order| ==> r.order[j] == s.order[j - 1])
    && |r.pos| == |s.pos| && |r.lo| == |s.lo| && |r.hi| == |s.hi| && |r.bh| == |s.bh|
    && r.pos[node] == i && r.lo[node] == i && r.hi[node] == i + 1 && r.bh[node] == 0
    && (forall m :: 0 <= m < |s.nodes| && m != node ==>
          r.pos[m] == Up(s.pos[m], i - 1) && r.lo[m] == Up(s.lo[m], t)
          && r.hi[m] == Up(s.hi[m], t) && r.bh[m] == s.bh[m])
    && r.nodes[temp] == WithChild(s.nodes[temp], side, node)
    && r.nodes[node] == s.nodes[node].(left := s.sentinel, right := s.sentinel, parent := temp, color := RedByte)
    && forall m :: 0 <= m < |s.nodes| && m != temp && m != node ==> r.nodes[m] == s.nodes[m]
  }

  /**
   * The state after the placement routines' final writes: `temp`'s empty
   * slot on side `side` takes `node`, which becomes a red leaf under
   * `temp`; the bookkeeping makes room for `node` at `Gap`.
   */
  ghost function Attached(s: State, temp: Handle, side: Side, node: Handle): State
    requires AttachLocal(s, temp, node)
  {
    var t := s.pos[temp];
    var i := Gap(s, temp, side);
    var ns := s.nodes[temp := WithChild(s.nodes[temp], side, node)];
    s.(nodes := ns[node := ns[node].(parent := temp, left := s.sentinel, right := s.sentinel, color := RedByte)],
       order := s.order[..i] + [node] + s.order[i..],
       pos := seq(|s.pos|, m requires 0 <= m < |s.pos| => if m == node then i else Up(s.pos[m], i - 1)),
       lo := seq(|s.lo|, m requires 0 <= m < |s.lo| => if m == node then i else Up(s.lo[m], t)),
       hi := seq(|s.hi|, m requires 0 <= m < |s.hi| => if m == node then i + 1 else Up(s.hi[m], t)),
       bh := s.bh[node := 0])
  }

  /** Those writes hang `node` as `AttachedOf` describes. */
  lemma AttachedIsAttach(s: State, temp: Handle, side: Side, node: Handle)
    requires AttachLocal(s, temp, node)
    ensures AttachedOf(s, temp, side, node, Attached(s, temp, side, node))
  {
  }

  /** Entry `j` of the new in-order sequence: which old entry it is. */
  lemma AttachEntry(s: State, temp: Handle, side: Side, node: Handle, r: State, j: int)
    requires CanAttach(s, temp, side, node) && AttachedOf(s, temp, side, node, r)
    requires 0 <= j < |r.order|
    ensures var i := Gap(s, temp, side);
      (j < i ==> r.order[j] == s.order[j]) && (j == i ==> r.order[j] == node)
      && (j > i ==> r.order[j] == s.order[j - 1])
    ensures r.order[j] < |r.nodes| && r.order[j] != r.sentinel && r.pos[r.order[j]] == j
  {
    var i := Gap(s, temp, side);
    assert NodeOk(s, temp);
    assert 0 <= i <= |s.order|;
    if j < i {
      assert r.order[j] == s.order[j];
    } else if j > i {
      assert r.order[j] == s.order[j - 1];
    }
  }

  /**
   * Linked node `c` is still linked, its range has moved past position `t`,
   * and it keeps its parent, key, colour and black height.
   */
  ghost predicate Moved(s: State, r: State, c: Handle, t: int)
    requires Sized(s) && Sized(r) && |r.nodes| == |s.nodes|
  {
    c < |s.nodes| && Linked(r, c) && r.lo[c] == Up(s.lo[c], t) && r.hi[c] == Up(s.hi[c], t)
    && r.nodes[c].parent == s.nodes[c].parent && r.nodes[c].key == s.nodes[c].key
    && r.nodes[c].color == s.nodes[c].color && r.bh[c] == s.bh[c]
  }

  /** What attaching does to one node that was linked before. */
  lemma AttachFacts(s: State, temp: Handle, side: Side, node: Handle, r: State, m: Handle)
    requires CanAttach(s, temp, side, node) && AttachedOf(s, temp, side, node, r) && Linked(s, m)
    ensures Sized(r) && m != node && Moved(s, r, m, s.pos[temp])
    ensures m != temp ==> r.nodes[m] == s.nodes[m] && r.pos[m] == Up(s.pos[m], s.pos[temp])
  {
    var i := Gap(s, temp, side);
    assert NodeOk(s, temp);
    var j := s.pos[m];
    AttachEntry(s, temp, side, node, r, if j < i then j else j + 1);
  }

  /** A node linked after attaching, other than the new one, was linked before. */
  lemma AttachBack(s: State, temp: Handle, side: Side, node: Handle, r: State, m: Handle)
    requires CanAttach(s, temp, side, node) && AttachedOf(s, temp, side, node, r)
    requires m < |s.nodes| && Linked(r, m) && m != node
    ensures Linked(s, m)
  {
    AttachEntry(s, temp, side, node, r, r.pos[m]);
  }

  /** The new in-order sequence lists each linked node once, at its new position. */
  lemma AttachOrder(s: State, temp: Handle, side: Side, node: Handle, r: State)
    requires CanAttach(s, temp, side, node) && AttachedOf(s, temp, side, node, r)
    ensures Sized(r) && |r.order| == |s.order| + 1
    ensures forall j :: 0 <= j < |r.order| ==>
      r.order[j] < |r.nodes| && r.order[j] != r.sentinel && r.pos[r.order[j]] == j
  {
    forall j | 0 <= j < |r.order|
      ensures r.order[j] < |r.nodes| && r.order[j] != r.sentinel && r.pos[r.order[j]] == j
    {
      AttachEntry(s, temp, side, node, r, j);
    }
  }

  /**
   * A node whose record is unchanged, whose children and parent moved in step
   * with it, and whose position is not the insertion point, stays well formed.
   */
  lemma MovedNodeOk(s: State, r: State, m: Handle, t: int)
    requires Sized(s) && Sized(r) && |r.nodes| == |s.nodes| && r.sentinel == s.sentinel && r.root == s.root
    requires |r.order| == |s.order| + 1 && m < |s.nodes| && NodeOk(s, m) && s.pos[m] != t
    requires r.nodes[m] == s.nodes[m] && Moved(s, r, m, t) && r.pos[m] == Up(s.pos[m], t)
    requires var nd := s.nodes[m];
      (nd.left != s.sentinel ==> Moved(s, r, nd.left, t))
      && (nd.right != s.sentinel ==> Moved(s, r, nd.right, t))
    requires var q := s.nodes[m].parent;
      m != s.root ==>
        q < |s.nodes| && Linked(r, q)
        && (s.nodes[q].left == m ==> r.nodes[q].left == m) && (s.nodes[q].right == m ==> r.nodes[q].right == m)
    ensures NodeOk(r, m)
  {
    if m != s.root {
      assert UpOk(s, m);
    }
  }

  /** The new leaf is well formed. */
  lemma AttachAtNode(s: State, temp: Handle, side: Side, node: Handle, r: State)
    requires CanAttach(s, temp, side, node) && AttachedOf(s, temp, side, node, r)
    ensures Sized(r) && Linked(r, node) && NodeOk(r, node)
  {
    AttachEntry(s, temp, side, node, r, Gap(s, temp, side));
    AttachFacts(s, temp, side, node, r, temp);
    assert Linked(s, s.root);
  }

  /** The node that receives the new leaf is well formed. */
  lemma AttachAtTemp(s: State, temp: Handle, side: Side, node: Handle, r: State)
    requires CanAttach(s, temp, side, node) && AttachedOf(s, temp, side, node, r)
    ensures Sized(r) && NodeOk(r, temp)
  {
    AttachEntry(s, temp, side, node, r, Gap(s, temp, side));
    AttachFacts(s, temp, side, node, r, temp);
    var nd := s.nodes[temp];
    var o := Child(nd, Flip(side));
    if o != s.sentinel {
      AttachFacts(s, temp, side, node, r, o);
    }
    if temp != s.root {
      assert UpOk(s, temp);
      AttachFacts(s, temp, side, node, r, nd.parent);
    }
  }

  /** Every other node linked before is well formed: its record is unchanged and its ranges move together. */
  lemma AttachElsewhere(s: State, temp: Handle, side: Side, node: Handle, r: State, m: Handle)
    requires CanAttach(s, temp, side, node) && AttachedOf(s, temp, side, node, r)
    requires Linked(s, m) && m != temp
    ensures Sized(r) && NodeOk(r, m)
  {
    var t := s.pos[temp];
    AttachFacts(s, temp, side, node, r, m);
    assert NodeOk(s, m);
    var nd := s.nodes[m];
    if nd.left != s.sentinel {
      AttachFacts(s, temp, side, node, r, nd.left);
    }
    if nd.right != s.sentinel {
      AttachFacts(s, temp, side, node, r, nd.right);
    }
    if m != s.root {
      assert UpOk(s, m);
      AttachFacts(s, temp, side, node, r, nd.parent);
    }
    MovedNodeOk(s, r, m, t);
  }

  /** Hanging a new leaf keeps the links a binary tree with the new in-order sequence. */
  lemma AttachShape(s: State, temp: Handle, side: Side, node: Handle, r: State)
    requires CanAttach(s, temp, side, node) && AttachedOf(s, temp, side, node, r)
    ensures Shape(r)
  {
    AttachOrder(s, temp, side, node, r);
    AttachAtNode(s, temp, side, node, r);
    AttachAtTemp(s, temp, side, node, r);
    forall m | Linked(r, m) && m != node && m != temp ensures NodeOk(r, m) {
      AttachBack(s, temp, side, node, r, m);
      AttachElsewhere(s, temp, side, node, r, m);
    }
    assert NodeOk(s, temp);
    assert Linked(s, s.root);
    AttachFacts(s, temp, side, node, r, s.root);
  }

  /** Attaching changes no key and no colour except the new leaf's. */
  lemma AttachKeys(s: State, temp: Handle, side: Side, node: Handle, r: State, m: Handle)
    requires CanAttach(s, temp, side, node) && AttachedOf(s, temp, side, node, r) && m < |s.nodes|
    ensures r.nodes[m].key == s.nodes[m].key
    ensures m != node ==> r.nodes[m].color == s.nodes[m].color
  {
  }

  /** One node of the tree after attaching: the colour rules hold except at the new red leaf. */
  lemma AttachColourAt(s: State, temp: Handle, side: Side, node: Handle, r: State, m: Handle)
    requires CanAttach(s, temp, side, node) && AttachedOf(s, temp, side, node, r) && RedBlack(s)
    requires m < |s.nodes| && Linked(r, m)
    ensures Sized(r) && Balanced(r, m) && RedOkBut(r, m, node)
  {
    AttachFacts(s, temp, side, node, r, temp);
    assert !Linked(s, s.sentinel);
    assert r.nodes[s.sentinel] == s.nodes[s.sentinel];
    if m != node {
      AttachBack(s, temp, side, node, r, m);
      AttachFacts(s, temp, side, node, r, m);
      assert Balanced(s, m) && RedOk(s, m);
      assert NodeOk(s, m);
      var nd := s.nodes[m];
      if nd.left != s.sentinel {
        AttachFacts(s, temp, side, node, r, nd.left);
      }
      if nd.right != s.sentinel {
        AttachFacts(s, temp, side, node, r, nd.right);
      }
      if m != temp {
        Untouched(s, r, m, node, node);
      }
    }
  }

  /** A red-black tree with a new red leaf breaks at most the rule about red parents, at the leaf. */
  lemma AttachColours(s: State, temp: Handle, side: Side, node: Handle, r: State)
    requires CanAttach(s, temp, side, node) && AttachedOf(s, temp, side, node, r) && RedBlack(s)
    ensures InsFix(r, node)
  {
    AttachShape(s, temp, side, node, r);
    AttachAtNode(s, temp, side, node, r);
    AttachFacts(s, temp, side, node, r, temp);
    assert !Linked(s, s.sentinel) && Linked(s, s.root);
    AttachFacts(s, temp, side, node, r, s.root);
    assert r.nodes[s.sentinel] == s.nodes[s.sentinel];
    forall m: Handle | Linked(r, m) ensures Balanced(r, m) && RedOkBut(r, m, node) {
      AttachColourAt(s, temp, side, node, r, m);
    }
  }

  /** The new node's key goes exactly after the keys that do not follow it. */
  ghost predicate FitsAt(s: State, p: Policy, k: Key, i: int)
    requires Shape(s)
  {
    0 <= i <= |s.order|
    && (forall j :: 0 <= j < i ==> !Precedes(p, k, KeyAt(s, j)))
    && (forall j :: i <= j < |s.order| ==> Precedes(p, k, KeyAt(s, j)))
  }

  /** One pair of positions of the new order is in order. */
  lemma AttachPair(s: State, temp: Handle, side: Side, node: Handle, r: State, p: Policy, base: Key, a: int, b: int)
    requires CanAttach(s, temp, side, node) && AttachedOf(s, temp, side, node, r) && Shape(r)
    requires Sorted(s, p) && AllInWindow(s, p, base) && InWindow(p, base, s.nodes[node].key)
    requires FitsAt(s, p, s.nodes[node].key, Gap(s, temp, side))
    requires 0 <= a < b < |r.order|
    ensures !Precedes(p, KeyAt(r, b), KeyAt(r, a))
  {
    var i := Gap(s, temp, side);
    var k := s.nodes[node].key;
    AttachEntry(s, temp, side, node, r, a);
    AttachEntry(s, temp, side, node, r, b);
    AttachKeys(s, temp, side, node, r, r.order[a]);
    AttachKeys(s, temp, side, node, r, r.order[b]);
    var oa := if a < i then a else a - 1;
    var ob := if b < i then b else b - 1;
    if a != i {
      LinkedAt(s, oa);
      assert KeyAt(r, a) == KeyAt(s, oa);
    }
    if b != i {
      LinkedAt(s, ob);
      assert KeyAt(r, b) == KeyAt(s, ob);
    }
    if a == i {
      assert KeyAt(r, a) == k;
      PrecedesIsRankOrder(p, base, k, KeyAt(s, ob));
      PrecedesIsRankOrder(p, base, KeyAt(s, ob), k);
    } else if b == i {
      assert KeyAt(r, b) == k;
    }
  }

  /** A node hung where its key fits keeps the keys sorted and in the window. */
  lemma AttachSorted(s: State, temp: Handle, side: Side, node: Handle, r: State, p: Policy, base: Key)
    requires CanAttach(s, temp, side, node) && AttachedOf(s, temp, side, node, r)
    requires Sorted(s, p) && AllInWindow(s, p, base) && InWindow(p, base, s.nodes[node].key)
    requires FitsAt(s, p, s.nodes[node].key, Gap(s, temp, side))
    ensures Shape(r) && Sorted(r, p) && AllInWindow(r, p, base)
  {
    AttachShape(s, temp, side, node, r);
    forall a, b | 0 <= a < b < |r.order| ensures !Precedes(p, KeyAt(r, b), KeyAt(r, a)) {
      AttachPair(s, temp, side, node, r, p, base, a, b);
    }
    forall j | 0 <= j < |r.order| ensures InWindow(p, base, KeyAt(r, j)) {
      AttachEntry(s, temp, side, node, r, j);
      AttachKeys(s, temp, side, node, r, r.order[j]);
      var i := Gap(s, temp, side);
      if j != i {
        var oj := if j < i then j else j - 1;
        LinkedAt(s, oj);
        assert KeyAt(r, j) == KeyAt(s, oj);
      }
    }
  }

  /**
   * `r` is the empty tree `s` with `node` as its only, black, node; the
   * null parent link is written as the sentinel.
   */
  ghost predicate FirstOf(s: State, node: Handle, r: State)
  {
    Sized(s) && node < |s.nodes| && node != s.sentinel
    && |r.nodes| == |s.nodes| && r.sentinel == s.sentinel && r.root == node
    && r.order == [node] && r.pos == s.pos[node := 0] && r.lo == s.lo[node := 0]
    && r.hi == s.hi[node := 1] && r.bh == s.bh[node := 0]
    && r.nodes == s.nodes[node := s.nodes[node].(left := s.sentinel, right := s.sentinel,
                                               parent := s.sentinel, color := BlackByte)]
  }

  /** The first node of an empty tree makes a one-node red-black tree. */
  lemma FirstTree(s: State, node: Handle, r: State, p: Policy)
    requires RedBlack(s) && s.root == s.sentinel && FirstOf(s, node, r)
    ensures RbInvariant(r, p) && Linked(r, node)
  {
    assert Linked(r, node);
    forall m: Handle | Linked(r, m) ensures m == node {
    }
    assert NodeOk(r, node);
    assert Balanced(r, node) && RedOk(r, node);
  }

  /** Once the new key precedes the key at `t`, it precedes every later key too. */
  lemma PrecedesLater(s: State, p: Policy, base: Key, k: Key, t: int)
    requires Shape(s) && Sorted(s, p) && AllInWindow(s, p, base) && InWindow(p, base, k)
    requires 0 <= t < |s.order| && Precedes(p, k, KeyAt(s, t))
    ensures forall j :: t <= j < |s.order| ==> Precedes(p, k, KeyAt(s, j))
  {
    forall j | t < j < |s.order| ensures Precedes(p, k, KeyAt(s, j)) {
      PrecedesIsRankOrder(p, base, k, KeyAt(s, t));
      PrecedesIsRankOrder(p, base, KeyAt(s, j), KeyAt(s, t));
      PrecedesIsRankOrder(p, base, k, KeyAt(s, j));
    }
  }

  /** Once the new key does not precede the key at `t`, it precedes no earlier key either. */
  lemma FollowsEarlier(s: State, p: Policy, base: Key, k: Key, t: int)
    requires Shape(s) && Sorted(s, p) && AllInWindow(s, p, base) && InWindow(p, base, k)
    requires 0 <= t < |s.order| && !Precedes(p, k, KeyAt(s, t))
    ensures forall j :: 0 <= j <= t ==> !Precedes(p, k, KeyAt(s, j))
  {
    forall j | 0 <= j < t ensures !Precedes(p, k, KeyAt(s, j)) {
      PrecedesIsRankOrder(p, base, k, KeyAt(s, t));
      PrecedesIsRankOrder(p, base, KeyAt(s, t), KeyAt(s, j));
      PrecedesIsRankOrder(p, base, k, KeyAt(s, j));
    }
  }

  /**
   * The descent of the placement routines has reached `t`: the keys
   * before `t`'s subtree do not follow `k`, those after it do.
   */
  ghost predicate Bracket(s: State, p: Policy, k: Key, t: Handle)
    requires Shape(s)
  {
    Linked(s, t) && 0 <= s.lo[t] <= s.hi[t] <= |s.order|
    && (forall j :: 0 <= j < s.lo[t] ==> !Precedes(p, k, KeyAt(s, j)))
    && (forall j :: s.hi[t] <= j < |s.order| ==> Precedes(p, k, KeyAt(s, j)))
  }

  /** The whole tree brackets every key. */
  lemma BracketRoot(s: State, p: Policy, k: Key)
    requires Shape(s) && s.root != s.sentinel
    ensures Bracket(s, p, k, s.root)
  {
  }

  /**
   * One step of the descent: going left when `k` precedes `t`'s key and
   * right otherwise keeps the bracket, into a smaller subtree, or reaches
   * the empty slot where `k` fits.
   */
  lemma Descend(s: State, p: Policy, base: Key, k: Key, t: Handle, d: Side)
    requires Shape(s) && Sorted(s, p) && AllInWindow(s, p, base) && InWindow(p, base, k)
    requires Bracket(s, p, k, t) && d == (if Precedes(p, k, s.nodes[t].key) then Left else Right)
    ensures Child(s.nodes[t], d) < |s.nodes|
    ensures var c := Child(s.nodes[t], d);
      c != s.sentinel ==> Bracket(s, p, k, c) && s.hi[c] - s.lo[c] < s.hi[t] - s.lo[t]
    ensures Child(s.nodes[t], d) == s.sentinel ==> FitsAt(s, p, k, Gap(s, t, d)) && NodeOk(s, t)
  {
    assert NodeOk(s, t);
    LinkedAt(s, s.pos[t]);
    if d == Left {
      PrecedesLater(s, p, base, k, s.pos[t]);
    } else {
      FollowsEarlier(s, p, base, k, s.pos[t]);
    }
  }

  /**
   * `r` is `s` with `node` hung as a red leaf into the empty slot on side
   * `side` of `temp`, the slot where its key fits the in-order sequence.
   */
  ghost predicate PlacedOf(s: State, p: Policy, temp: Handle, side: Side, node: Handle, r: State)
  {
    CanAttach(s, temp, side, node) && AttachedOf(s, temp, side, node, r)
    && FitsAt(s, p, s.nodes[node].key, Gap(s, temp, side))
  }

  /**
   * A node placed into a sorted red-black tree leaves a sorted tree that is
   * red-black except for the new red leaf, whose in-order sequence is the
   * old one with `node` inserted at `Gap`, and whose keys are unchanged.
   */
  lemma PlacedTree(s: State, p: Policy, base: Key, temp: Handle, side: Side, node: Handle, r: State)
    requires RbInvariant(s, p) && AllInWindow(s, p, base) && PlacedOf(s, p, temp, side, node, r)
    requires InWindow(p, base, s.nodes[node].key)
    ensures InsFix(r, node) && Sorted(r, p) && AllInWindow(r, p, base)
    ensures var i := Gap(s, temp, side);
      0 <= i <= |s.order| && r.order == s.order[..i] + [node] + s.order[i..]
    ensures |r.nodes| == |s.nodes| && r.sentinel == s.sentinel
    ensures forall m :: 0 <= m < |s.nodes| ==> r.nodes[m].key == s.nodes[m].key
  {
    AttachColours(s, temp, side, node, r);
    AttachSorted(s, temp, side, node, r, p, base);
    forall m | 0 <= m < |s.nodes| ensures r.nodes[m].key == s.nodes[m].key {
      AttachKeys(s, temp, side, node, r, m);
    }
    var i := Gap(s, temp, side);
    forall j | 0 <= j < |r.order| ensures r.order[j] == (s.order[..i] + [node] + s.order[i..])[j] {
      AttachEntry(s, temp, side, node, r, j);
    }
  }

  /**
   * `r` is the sorted red-black tree `s` with `node` linked in at position
   * `at` of the in-order sequence: after every key `node`'s key does not
   * precede and before every key it does. Every key and data byte is
   * unchanged, and so is every record outside the tree but `node` and the
   * sentinel.
   */
  ghost predicate InsertedOf(s: State, p: Policy, base: Key, node: Handle, at: int, r: State)
    requires Shape(s)
  {
    RbInvariant(r, p) && Linked(r, node) && AllInWindow(r, p, base)
    && 0 <= at <= |s.order| && r.order == s.order[..at] + [node] + s.order[at..]
    && |r.nodes| == |s.nodes| && r.sentinel == s.sentinel
    && FitsAt(s, p, s.nodes[node].key, at)
    && (forall m :: 0 <= m < |s.nodes| ==> r.nodes[m].key == s.nodes[m].key && r.nodes[m].data == s.nodes[m].data)
    && (forall m :: 0 <= m < |s.nodes| && m != node && m != s.sentinel && !Linked(s, m) ==> r.nodes[m] == s.nodes[m])
  }

  /** The first node of an empty tree is inserted at position 0. */
  lemma FirstInserted(s: State, p: Policy, base: Key, node: Handle, r: State)
    requires RedBlack(s) && s.root == s.sentinel && FirstOf(s, node, r) && InWindow(p, base, s.nodes[node].key)
    ensures InsertedOf(s, p, base, node, 0, r)
  {
    FirstTree(s, node, r, p);
    assert KeyAt(r, 0) == s.nodes[node].key;
  }

  /** Rebalancing after placement keeps what placement did to the in-order sequence, the keys and the frame. */
  lemma PlacedInserted(s: State, p: Policy, base: Key, temp: Handle, side: Side, node: Handle, s1: State, r: State)
    requires RbInvariant(s, p) && AllInWindow(s, p, base) && PlacedOf(s, p, temp, side, node, s1)
    requires InWindow(p, base, s.nodes[node].key)
    requires RbInvariant(r, p) && AllInWindow(r, p, base) && KeysKept(s1, r) && Framed(s1, r)
    ensures InsertedOf(s, p, base, node, Gap(s, temp, side), r)
  {
    PlacedTree(s, p, base, temp, side, node, s1);
    assert Linked(s1, node);
    AttachedFrame(s, temp, side, node, s1, r);
  }

  /**
   * Hanging `node`, then steps that keep the frame of the new tree, change
   * no data byte and no record outside the old tree but `node` and the
   * sentinel.
   */
  lemma AttachedFrame(s: State, temp: Handle, side: Side, node: Handle, s1: State, r: State)
    requires CanAttach(s, temp, side, node) && AttachedOf(s, temp, side, node, s1)
    requires r.order == s1.order && Framed(s1, r)
    ensures forall m :: 0 <= m < |s.nodes| ==> r.nodes[m].data == s.nodes[m].data
    ensures forall m :: 0 <= m < |s.nodes| && m != node && m != s.sentinel && !Linked(s, m) ==> r.nodes[m] == s.nodes[m]
  {
    forall m | 0 <= m < |s.nodes| && m != node && m != s.sentinel && !Linked(s, m)
      ensures r.nodes[m] == s.nodes[m]
    {
      LinkedIsIn(s, m);
      forall j | 0 <= j < |s1.order|
        ensures s1.order[j] != m
      {
        AttachEntry(s, temp, side, node, s1, j);
      }
      assert m !in s1.order;
    }
  }
}
