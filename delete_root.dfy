/**
 * `ngx_rbtree_delete` when the node that leaves its slot is the root: the
 * root has an empty child slot, its other child `t` becomes the root and
 * is painted black, and the old root's links are cleared and its key
 * zeroed. `t`'s parent link is left pointing at the cleared record, as in
 * the C code; the root's parent link carries no meaning.
 */
module DeleteRoot {
  import opened Keys
  import opened Layout
  import opened Colours
  import opened DeleteSplice

  /** The root `z` is deleted and has at most one child, `t`. */
  ghost predicate RootCase(s: State, z: Handle, t: Handle)
  {
    SpliceCase(s, z, z, t) && z == s.root && t < |s.nodes|
  }

  /** The state after the early return of `ngx_rbtree_delete`: `t` is the new, black root. */
  ghost function RootSpliced(s: State, z: Handle, t: Handle): (r: State)
    requires Sized(s) && z < |s.nodes| && t < |s.nodes| && 0 <= s.pos[z] < |s.order|
    ensures |r.nodes| == |s.nodes| && r.root == t && r.sentinel == s.sentinel
  {
    var k := s.pos[z];
    var n1 := s.nodes[t := s.nodes[t].(color := BlackByte)];
    s.(nodes := n1[z := n1[z].(left := s.sentinel, right := s.sentinel, parent := s.sentinel, key := 0)],
       root := t,
       order := s.order[..k] + s.order[k + 1..],
       pos := seq(|s.pos|, m requires 0 <= m < |s.pos| => Down(s.pos[m], k)),
       lo := seq(|s.lo|, m requires 0 <= m < |s.lo| => Down(s.lo[m], k)),
       hi := seq(|s.hi|, m requires 0 <= m < |s.hi| => Down(s.hi[m], k)))
  }

  /** The facts of the root case every lemma below starts from. */
  lemma RootFacts(s: State, z: Handle, t: Handle)
    requires RootCase(s, z, t)
    ensures var k := s.pos[z];
      NodeOk(s, z) && t < |s.nodes| && t != z && s.lo[z] == 0 && s.hi[z] == |s.order|
      && (t == s.sentinel <==> |s.order| == 1)
      && (s.nodes[z].left == t || s.nodes[z].right == t)
      && (s.nodes[z].left == s.sentinel || s.nodes[z].right == s.sentinel)
      && (t != s.sentinel ==>
            Linked(s, t) && s.nodes[t].parent == z && Down(s.lo[t], k) == 0 && Down(s.hi[t], k) == |s.order| - 1)
  {
    SelfFacts(s, z, z, t);
  }

  /** Entry `i` of the new in-order sequence is the old entry `i`, or `i + 1` from the root's position on. */
  lemma RootEntry(s: State, z: Handle, t: Handle, i: int)
    requires RootCase(s, z, t) && 0 <= i < |s.order| - 1
    ensures var r := RootSpliced(s, z, t);
      var i' := if i < s.pos[z] then i else i + 1;
      |r.order| == |s.order| - 1 && 0 <= i' < |s.order| && r.order[i] == s.order[i'] && r.order[i] != z
      && Linked(s, r.order[i]) && Linked(r, r.order[i]) && r.pos[r.order[i]] == i
  {
    var i' := if i < s.pos[z] then i else i + 1;
    LinkedAt(s, i');
  }

  /** A node linked after the early return was linked before and is not the old root. */
  lemma RootBack(s: State, z: Handle, t: Handle, m: Handle)
    requires RootCase(s, z, t) && Linked(RootSpliced(s, z, t), m)
    ensures Linked(s, m) && m != z
  {
    RootEntry(s, z, t, RootSpliced(s, z, t).pos[m]);
  }

  /** Every node linked before, other than the old root, is linked after the early return. */
  lemma RootForth(s: State, z: Handle, t: Handle, m: Handle)
    requires RootCase(s, z, t) && Linked(s, m) && m != z
    ensures Linked(RootSpliced(s, z, t), m)
  {
    var k := s.pos[z];
    var i' := s.pos[m];
    assert i' != k;
    RootEntry(s, z, t, if i' < k then i' else i' - 1);
  }

  /** Side `d` of a remaining node holds the same subtree, its range moved down past the old root. */
  lemma RootSlot(s: State, z: Handle, t: Handle, m: Handle, d: Side)
    requires RootCase(s, z, t) && Linked(s, m) && m != z
    ensures var r := RootSpliced(s, z, t);
      var k := s.pos[z];
      Child(r.nodes[m], d) == Child(s.nodes[m], d)
      && SlotOk(r, Child(r.nodes[m], d), Down(SlotLo(s, m, d), k), Down(SlotHi(s, m, d), k), m)
  {
    var r := RootSpliced(s, z, t);
    var c := Child(s.nodes[m], d);
    assert NodeOk(s, m);
    RootNotChild(s, m);
    if c != s.sentinel {
      ChildOf(s, m, d);
      assert NodeOk(s, c);
      RootForth(s, z, t, c);
      DownKeeps(s.lo[c], s.pos[c], s.hi[c], s.pos[z]);
    }
  }

  /** A remaining node other than the new root still hangs below its parent. */
  lemma RootUp(s: State, z: Handle, t: Handle, m: Handle)
    requires RootCase(s, z, t) && Linked(s, m) && m != z && m != t
    ensures UpOk(RootSpliced(s, z, t), m)
  {
    RootFacts(s, z, t);
    assert NodeOk(s, m) && UpOk(s, m);
    var q := s.nodes[m].parent;
    assert q != z;
    RootForth(s, z, t, q);
  }

  /** Every node linked after the early return is well formed. */
  lemma RootNodeOk(s: State, z: Handle, t: Handle, m: Handle)
    requires RootCase(s, z, t) && Linked(RootSpliced(s, z, t), m)
    ensures NodeOk(RootSpliced(s, z, t), m)
  {
    var k := s.pos[z];
    RootBack(s, z, t, m);
    assert NodeOk(s, m);
    assert s.pos[m] != k;
    DownKeeps(s.lo[m], s.pos[m], s.hi[m], k);
    RootSlot(s, z, t, m, Left);
    RootSlot(s, z, t, m, Right);
    if m != t {
      RootUp(s, z, t, m);
    }
  }

  /** Deleting the root of a tree leaves a tree of the other nodes, empty exactly when the root was alone. */
  lemma RootShape(s: State, z: Handle, t: Handle)
    requires RootCase(s, z, t)
    ensures var r := RootSpliced(s, z, t);
      Shape(r) && |r.order| == |s.order| - 1 && (r.root == r.sentinel <==> |s.order| == 1)
  {
    var r := RootSpliced(s, z, t);
    RootFacts(s, z, t);
    forall i | 0 <= i < |r.order|
      ensures r.order[i] < |r.nodes| && r.order[i] != r.sentinel && r.pos[r.order[i]] == i
    {
      RootEntry(s, z, t, i);
    }
    if t != s.sentinel {
      RootForth(s, z, t, t);
    }
    forall n | Linked(r, n)
      ensures NodeOk(r, n)
    {
      RootNodeOk(s, z, t, n);
    }
  }

  /** Every record but the old root's keeps its links and colour; only `t` is painted black. */
  lemma RootRecord(s: State, z: Handle, t: Handle, m: Handle)
    requires RootCase(s, z, t) && m < |s.nodes| && m != z
    ensures var r := RootSpliced(s, z, t);
      r.nodes[m] == (if m == t then s.nodes[m].(color := BlackByte) else s.nodes[m]) && r.bh == s.bh
  {
  }

  /** A remaining node keeps the red-black rules; the new root is black. */
  lemma RootRules(s: State, z: Handle, t: Handle, m: Handle)
    requires RootCase(s, z, t) && RedBlack(s) && Linked(s, m) && m != z
    ensures var r := RootSpliced(s, z, t);
      Balanced(r, m) && RedOk(r, m)
  {
    var nd := s.nodes[m];
    assert NodeOk(s, m) && Balanced(s, m) && RedOk(s, m);
    RootFacts(s, z, t);
    RootNotChild(s, m);
    RootRecord(s, z, t, m);
    RootRecord(s, z, t, nd.left);
    RootRecord(s, z, t, nd.right);
    if nd.left != s.sentinel {
      Kid(s, m, nd.left);
    }
    if nd.right != s.sentinel {
      Kid(s, m, nd.right);
    }
  }

  /** Deleting the root keeps the red-black rules. */
  lemma RootRedBlack(s: State, z: Handle, t: Handle)
    requires RootCase(s, z, t) && RedBlack(s)
    ensures RedBlack(RootSpliced(s, z, t))
  {
    var r := RootSpliced(s, z, t);
    RootShape(s, z, t);
    RootFacts(s, z, t);
    forall n | Linked(r, n)
      ensures Balanced(r, n) && RedOk(r, n)
    {
      RootBack(s, z, t, n);
      RootRules(s, z, t, n);
    }
  }

  /** Deleting the root keeps every other key in order. */
  lemma RootKeys(s: State, z: Handle, t: Handle, p: Policy, base: Key)
    requires RootCase(s, z, t)
    ensures var r := RootSpliced(s, z, t);
      Shape(r)
      && (forall i :: 0 <= i < |r.order| ==> KeyAt(r, i) == KeyAt(s, if i < s.pos[z] then i else i + 1))
      && (Sorted(s, p) ==> Sorted(r, p))
      && (AllInWindow(s, p, base) ==> AllInWindow(r, p, base))
  {
    var r := RootSpliced(s, z, t);
    RootShape(s, z, t);
    forall i | 0 <= i < |r.order|
      ensures KeyAt(r, i) == KeyAt(s, if i < s.pos[z] then i else i + 1)
    {
      RootEntry(s, z, t, i);
    }
  }
}
