/**
 * What `ngx_rbtree_delete` promises, as a relation between the tree before
 * and after, and the two lemmas that establish it: one for the early
 * return when the removed slot is the root's, one for the splice followed
 * (when the removed colour was black) by the rebalancing loop.
 */
module Deletion {
  import opened Keys
  import opened Layout
  import opened DeleteFixup
  import opened DeleteSplice
  import opened DeleteRoot

  /**
   * `r` is `s` after deleting the linked node `z`: a sorted red-black tree
   * whose in-order walk is the old one without `z`'s entry, with every
   * other key unchanged, `z` unlinked with its key zeroed, empty exactly
   * when `z` was alone, with every key still in the timer window when all
   * were before, every record's data byte kept, and every record outside
   * the old tree, other than the sentinel, left as it was.
   */
  ghost predicate DeletedOf(s: State, p: Policy, base: Key, z: Handle, r: State)
    requires Shape(s) && Linked(s, z)
  {
    RbInvariant(r, p) && r.sentinel == s.sentinel && |r.nodes| == |s.nodes|
    && r.order == s.order[..s.pos[z]] + s.order[s.pos[z] + 1..]
    && !Linked(r, z) && r.nodes[z].key == 0
    && (forall m :: 0 <= m < |s.nodes| && m != z ==> r.nodes[m].key == s.nodes[m].key)
    && (r.root == r.sentinel <==> |s.order| == 1)
    && (AllInWindow(s, p, base) ==> AllInWindow(r, p, base))
    && (forall m :: 0 <= m < |s.nodes| ==> r.nodes[m].data == s.nodes[m].data)
    && (forall m :: 0 <= m < |s.nodes| && m != z && m != s.sentinel && !Linked(s, m) ==> r.nodes[m] == s.nodes[m])
  }

  /** Deleting a root with an empty child slot meets the promise. */
  lemma RootDeleted(s: State, z: Handle, t: Handle, p: Policy, base: Key)
    requires RootCase(s, z, t) && RbInvariant(s, p)
    ensures DeletedOf(s, p, base, z, RootSpliced(s, z, t))
  {
    var r := RootSpliced(s, z, t);
    RootFacts(s, z, t);
    RootShape(s, z, t);
    RootRedBlack(s, z, t);
    RootKeys(s, z, t, p, base);
    Unlinked(s, z, r);
    forall m | 0 <= m < |s.nodes| && m != z
      ensures r.nodes[m].key == s.nodes[m].key && r.nodes[m].data == s.nodes[m].data
      ensures m != s.sentinel && !Linked(s, m) ==> r.nodes[m] == s.nodes[m]
    {
      RootRecord(s, z, t, m);
    }
  }

  /**
   * Splicing `y` out, then restoring the red-black rules without touching
   * keys or the in-order walk, meets the promise.
   */
  lemma SplicedDeleted(s: State, z: Handle, y: Handle, t: Handle, s1: State, r: State, p: Policy, base: Key)
    requires SpliceStep(s, z, y, t, s1) && RbInvariant(s, p)
    requires RedBlack(r) && KeysKept(s1, r) && Framed(s1, r)
    ensures DeletedOf(s, p, base, z, r)
  {
    SpliceKeys(s, z, y, t, s1, p, base);
    SpliceFrame(s, z, y, t, s1, r);
    SameKeys(s1, r, p, base);
    Unlinked(s, z, r);
    forall m | 0 <= m < |s.nodes| && m != z
      ensures r.nodes[m].key == s.nodes[m].key
    {
      assert Moves(s, z, y, t, s1.nodes[m], m);
    }
  }
}
