/**
 * The rebalancing loop that ends `ngx_rbtree_delete`: the invariant it keeps
 * and one lemma per case of its body, each written once for both mirror
 * images (`d` is the side of its parent on which `t`, the node the loop
 * walks with, hangs).
 *
 * When a black node leaves the tree, the slot it leaves to `t` is one black
 * level short. The loop either absorbs the missing level locally or moves
 * the shortage one level up.
 */
module DeleteFixup {
  import opened Keys
  import opened Layout
  import opened Rotation
  import opened Colours

  /** The number of nodes below `t`; the sentinel's is zero. */
  ghost function Width(s: State, t: Handle): int
  {
    if t == s.sentinel || t >= |s.hi| || t >= |s.lo| then 0 else s.hi[t] - s.lo[t]
  }

  /**
   * `t` hangs below `tp`, its parent link, one black level short of `tp`'s
   * black height, while `tp`'s other child `w` has the full height and is
   * black if `tp` is red.
   */
  ghost predicate Short(s: State, t: Handle)
    requires Sized(s) && t < |s.nodes|
  {
    var tp := s.nodes[t].parent;
    tp < |s.nodes| && Linked(s, tp) && (s.nodes[tp].left == t || s.nodes[tp].right == t)
    && var w := Child(s.nodes[tp], Flip(SideOf(s.nodes[tp], t)));
    w < |s.nodes| && BH(s, t) + 1 == s.bh[tp] && BH(s, w) == s.bh[tp]
    && (Red(s.nodes[tp]) ==> !Red(s.nodes[w]))
  }

  /**
   * The loop invariant: a red-black tree except that the slot of `t` (the
   * sentinel, possibly) is one black level short when `t` is not the root,
   * and that a red `t` may have a red parent or a red child.
   */
  ghost predicate DelFix(s: State, t: Handle)
  {
    Shape(s) && !Red(s.nodes[s.sentinel]) && !Red(s.nodes[s.root]) && t < |s.nodes|
    && (t != s.sentinel ==> Linked(s, t) && Balanced(s, t))
    && (t != s.root ==> Short(s, t))
    && (forall n {:trigger Balanced(s, n)} {:trigger RedOk(s, n)} ::
          Linked(s, n) && n != t && (t == s.root || n != s.nodes[t].parent) ==> Balanced(s, n) && RedOk(s, n))
  }

  /** A node whose children, colour and black height and its children's are unchanged keeps the rules. */
  lemma Unchanged(s: State, r: State, n: Handle)
    requires Sized(s) && Sized(r) && |r.nodes| == |s.nodes| && r.sentinel == s.sentinel
    requires n < |s.nodes| && r.bh[n] == s.bh[n]
    requires r.nodes[n].left == s.nodes[n].left && r.nodes[n].right == s.nodes[n].right
    requires r.nodes[n].color == s.nodes[n].color
    requires Balanced(s, n) && RedOk(s, n)
    requires var nd := s.nodes[n];
      r.nodes[nd.left].color == s.nodes[nd.left].color && r.nodes[nd.right].color == s.nodes[nd.right].color
      && r.bh[nd.left] == s.bh[nd.left] && r.bh[nd.right] == s.bh[nd.right]
    ensures Balanced(r, n) && RedOk(r, n)
  {
  }

  /** The root's subtree is the whole tree. */
  lemma RootWidth(s: State)
    requires Shape(s)
    ensures Width(s, s.root) == |s.order|
  {
  }

  /** Ending the loop at the root of a tree with the same in-order walk makes progress. */
  lemma EndWidth(s: State, t: Handle, r: State)
    requires DelFix(s, t) && t != s.root && Shape(r) && r.order == s.order
    ensures Width(r, r.root) > Width(s, t)
  {
    WidthBounds(s, t);
    RootWidth(r);
  }

  /** Under the loop invariant the subtree of `t` is no larger than the tree, and smaller unless `t` is the root. */
  lemma WidthBounds(s: State, t: Handle)
    requires DelFix(s, t)
    ensures 0 <= Width(s, t) <= |s.order|
    ensures t != s.root ==> Width(s, t) < Width(s, s.nodes[t].parent)
    ensures t != s.root ==> Width(s, s.nodes[t].parent) <= |s.order|
  {
    if t != s.sentinel {
      assert NodeOk(s, t);
    }
    if t != s.root {
      var tp := s.nodes[t].parent;
      assert NodeOk(s, tp);
      if t != s.sentinel {
        ParentWider(s, t);
      }
    }
  }

  /** Painting a red or root `t` black keeps the rules at a node other than `t` and its parent. */
  lemma FinishElsewhere(s: State, t: Handle, n: Handle)
    requires DelFix(s, t) && (t == s.root || Red(s.nodes[t])) && Linked(s, n) && n != t
    requires t == s.root || n != s.nodes[t].parent
    ensures Balanced(Paint(s, t, BlackByte), n) && RedOk(Paint(s, t, BlackByte), n)
  {
    assert Balanced(s, n) && RedOk(s, n);
    assert NodeOk(s, n);
    if t == s.root {
      RootNotChild(s, n);
    } else {
      assert NodeOk(s, t) && UpOk(s, t);
    }
    Unchanged(s, Paint(s, t, BlackByte), n);
  }

  /** Painting a red `t` black gives its parent the missing black level. */
  lemma FinishAtParent(s: State, t: Handle)
    requires DelFix(s, t) && t != s.root && Red(s.nodes[t])
    ensures Balanced(Paint(s, t, BlackByte), s.nodes[t].parent) && RedOk(Paint(s, t, BlackByte), s.nodes[t].parent)
  {
    assert NodeOk(s, s.nodes[t].parent);
  }

  /** Painting `t` black keeps its own black height right. */
  lemma FinishAtT(s: State, t: Handle)
    requires DelFix(s, t) && t != s.sentinel
    ensures Balanced(Paint(s, t, BlackByte), t) && RedOk(Paint(s, t, BlackByte), t)
  {
    assert NodeOk(s, t);
  }

  /**
   * When the loop stops, `t` is the root or red; painting it black leaves
   * a red-black tree.
   */
  lemma DelFinish(s: State, t: Handle)
    requires DelFix(s, t) && (t == s.root || Red(s.nodes[t]))
    ensures RedBlack(Paint(s, t, BlackByte))
  {
    var r := Paint(s, t, BlackByte);
    PaintSameLinks(s, t, BlackByte);
    SameLinksShape(s, r);
    if t != s.root {
      FinishAtParent(s, t);
    }
    if t != s.sentinel {
      FinishAtT(s, t);
    }
    forall n: Handle | Linked(r, n) ensures Balanced(r, n) && RedOk(r, n) {
      if n != t && (t == s.root || n != s.nodes[t].parent) {
        FinishElsewhere(s, t, n);
      }
    }
  }

  /** The node the loop stops at is the sentinel or a node of the tree. */
  lemma FixIn(s: State, t: Handle)
    requires DelFix(s, t)
    ensures t == s.sentinel || t in s.order
  {
    LinkedIsIn(s, t);
  }

  /** The situation in which the loop body runs: `t` is black, not the root, and hangs on side `d` of `p`. */
  ghost predicate Step(s: State, t: Handle, p: Handle, d: Side)
  {
    DelFix(s, t) && t != s.root && !Red(s.nodes[t])
    && p == s.nodes[t].parent && d == SideOf(s.nodes[p], t)
  }

  /** While the loop runs, `t`'s sibling `w` is a linked node with the full black height. */
  lemma StepFacts(s: State, t: Handle, p: Handle, d: Side)
    requires Step(s, t, p, d)
    ensures Linked(s, p) && Child(s.nodes[p], d) == t && p != t && s.bh[p] >= 1
    ensures var w := Child(s.nodes[p], Flip(d));
      w != s.sentinel && Linked(s, w) && w != t && w != p && s.nodes[w].parent == p
      && Balanced(s, w) && RedOk(s, w) && BH(s, w) == s.bh[p]
      && (Red(s.nodes[p]) ==> !Red(s.nodes[w]))
  {
    if t != s.sentinel {
      assert NodeOk(s, t);
    }
    var w := Child(s.nodes[p], Flip(d));
    assert NodeOk(s, p);
    assert w != s.sentinel;
    ChildOf(s, p, Flip(d));
  }

  /** The nodes a pass of the loop repaints are nodes of the tree. */
  lemma StepIn(s: State, t: Handle, p: Handle, d: Side)
    requires Step(s, t, p, d)
    ensures var w := Child(s.nodes[p], Flip(d));
      p in s.order && w < |s.nodes| && w in s.order
      && Child(s.nodes[w], d) < |s.nodes| && Child(s.nodes[w], Flip(d)) < |s.nodes|
      && (Red(s.nodes[Child(s.nodes[w], d)]) ==> Child(s.nodes[w], d) in s.order)
      && (Red(s.nodes[Child(s.nodes[w], Flip(d))]) ==> Child(s.nodes[w], Flip(d)) in s.order)
  {
    StepFacts(s, t, p, d);
    var w := Child(s.nodes[p], Flip(d));
    LinkedIsIn(s, p);
    LinkedIsIn(s, w);
    assert NodeOk(s, w);
    if Child(s.nodes[w], d) != s.sentinel {
      ChildOf(s, w, d);
      LinkedIsIn(s, Child(s.nodes[w], d));
    }
    if Child(s.nodes[w], Flip(d)) != s.sentinel {
      ChildOf(s, w, Flip(d));
      LinkedIsIn(s, Child(s.nodes[w], Flip(d)));
    }
  }

  // ---------------------------------------------------------------------------
  // Sibling black with two black children: paint it red, move up to `p`

  /** `s` with the sibling `w` painted red and `p` one black level lower. */
  ghost function Lowered(s: State, p: Handle, w: Handle): State
    requires p < |s.nodes| && w < |s.nodes| && p < |s.bh|
  {
    Paint(s, w, RedByte).(bh := s.bh[p := s.bh[p] - 1])
  }

  /** Only `w`'s colour and `p`'s black height change. */
  lemma LoweredAt(s: State, p: Handle, w: Handle, m: Handle)
    requires p < |s.nodes| && w < |s.nodes| && p < |s.bh| && m < |s.nodes| && m < |s.bh|
    ensures var r := Lowered(s, p, w);
      |r.nodes| == |s.nodes| && |r.bh| == |s.bh| && r.sentinel == s.sentinel
      && (m != w ==> r.nodes[m] == s.nodes[m]) && (m != p ==> r.bh[m] == s.bh[m])
  {
  }

  /** The case the lemmas below treat: `w`, the sibling of `t`, is black with black children. */
  ghost predicate NephewsCase(s: State, t: Handle, p: Handle, d: Side)
  {
    Step(s, t, p, d) && Child(s.nodes[p], Flip(d)) < |s.nodes|
    && var w := Child(s.nodes[p], Flip(d));
    !Red(s.nodes[w]) && s.nodes[w].left < |s.nodes| && s.nodes[w].right < |s.nodes|
    && !Red(s.nodes[s.nodes[w].left]) && !Red(s.nodes[s.nodes[w].right])
  }

  lemma NephewsAtP(s: State, t: Handle, p: Handle, d: Side)
    requires NephewsCase(s, t, p, d)
    ensures Balanced(Lowered(s, p, Child(s.nodes[p], Flip(d))), p)
  {
    StepFacts(s, t, p, d);
  }

  lemma NephewsAtW(s: State, t: Handle, p: Handle, d: Side)
    requires NephewsCase(s, t, p, d)
    ensures var w := Child(s.nodes[p], Flip(d));
      Balanced(Lowered(s, p, w), w) && RedOk(Lowered(s, p, w), w)
  {
    StepFacts(s, t, p, d);
    var w := Child(s.nodes[p], Flip(d));
    assert NodeOk(s, w);
  }

  /** `p`'s parent `q` is a linked node distinct from `t`, `p` and `w`, and keeps the rules. */
  lemma Grand(s: State, t: Handle, p: Handle, d: Side)
    requires Step(s, t, p, d) && p != s.root
    ensures var q := s.nodes[p].parent;
      q < |s.nodes| && Linked(s, q) && q != t && q != p && q != Child(s.nodes[p], Flip(d))
      && (s.nodes[q].left == p || s.nodes[q].right == p)
      && Balanced(s, q) && RedOk(s, q)
  {
    StepFacts(s, t, p, d);
    assert NodeOk(s, p) && UpOk(s, p);
    ParentWider(s, p);
    if t != s.sentinel {
      ParentWider(s, t);
    }
    var w := Child(s.nodes[p], Flip(d));
    ParentWider(s, w);
  }

  /** `p`'s slot is now one black level short. */
  lemma NephewsShort(s: State, t: Handle, p: Handle, d: Side)
    requires NephewsCase(s, t, p, d) && p != s.root
    ensures var r := Lowered(s, p, Child(s.nodes[p], Flip(d)));
      Sized(r) && Short(r, p)
  {
    StepFacts(s, t, p, d);
    Grand(s, t, p, d);
    var w := Child(s.nodes[p], Flip(d));
    var r := Lowered(s, p, w);
    var q := s.nodes[p].parent;
    var v := Child(s.nodes[q], Flip(SideOf(s.nodes[q], p)));
    assert NodeOk(s, q);
    assert v != p;
    if v != s.sentinel {
      ChildOf(s, q, Flip(SideOf(s.nodes[q], p)));
    }
    assert v != w;
    assert BH(r, v) == BH(s, v);
    assert BH(r, p) + 1 == r.bh[q];
  }

  lemma NephewsElsewhere(s: State, t: Handle, p: Handle, d: Side, n: Handle)
    requires NephewsCase(s, t, p, d) && Linked(s, n) && n != p && n != Child(s.nodes[p], Flip(d))
    requires p == s.root || n != s.nodes[p].parent
    ensures var r := Lowered(s, p, Child(s.nodes[p], Flip(d)));
      Balanced(r, n) && RedOk(r, n)
  {
    StepFacts(s, t, p, d);
    var w := Child(s.nodes[p], Flip(d));
    assert NodeOk(s, n);
    if n != t {
      assert Balanced(s, n) && RedOk(s, n);
    }
    if p == s.root {
      RootNotChild(s, n);
    }
    var nd := s.nodes[n];
    assert nd.left != w && nd.right != w;
    assert nd.left != p && nd.right != p;
    LoweredAt(s, p, w, n);
    LoweredAt(s, p, w, nd.left);
    LoweredAt(s, p, w, nd.right);
    Unchanged(s, Lowered(s, p, w), n);
  }

  /** After the recolouring every node but `p` and its parent keeps the rules. */
  lemma NephewsEveryNode(s: State, t: Handle, p: Handle, d: Side)
    requires NephewsCase(s, t, p, d)
    ensures var r := Lowered(s, p, Child(s.nodes[p], Flip(d)));
      forall n {:trigger Balanced(r, n)} {:trigger RedOk(r, n)} ::
        Linked(r, n) && n != p && (p == r.root || n != r.nodes[p].parent) ==> Balanced(r, n) && RedOk(r, n)
  {
    var w := Child(s.nodes[p], Flip(d));
    var r := Lowered(s, p, w);
    NephewsAtW(s, t, p, d);
    LoweredAt(s, p, w, p);
    forall n: Handle | Linked(r, n) && n != p && (p == r.root || n != r.nodes[p].parent)
      ensures Balanced(r, n) && RedOk(r, n)
    {
      if n != w {
        NephewsElsewhere(s, t, p, d, n);
      }
    }
  }

  /**
   * The sibling is black with black children: painting it red takes a
   * black level from both sides of `p`, so the shortage moves up to `p`,
   * whose subtree is larger.
   */
  lemma DelNephewsBlack(s: State, t: Handle, p: Handle, d: Side)
    requires NephewsCase(s, t, p, d)
    ensures var r := Lowered(s, p, Child(s.nodes[p], Flip(d)));
      DelFix(r, p) && KeysKept(s, r) && Width(r, p) > Width(s, t)
  {
    StepFacts(s, t, p, d);
    var w := Child(s.nodes[p], Flip(d));
    var r := Lowered(s, p, w);
    PaintSameLinks(s, w, RedByte);
    SameLinksShape(s, r);
    WidthBounds(s, t);
    NephewsAtP(s, t, p, d);
    if p != s.root {
      NephewsShort(s, t, p, d);
    }
    NephewsEveryNode(s, t, p, d);
    RootNotChild(s, p);
    LoweredAt(s, p, w, s.root);
    LoweredAt(s, p, w, s.sentinel);
  }

  // ---------------------------------------------------------------------------
  // Sibling red: recolour, rotate at `p`, and `t` gets a black sibling

  ghost predicate RedSibCase(s: State, t: Handle, p: Handle, d: Side)
  {
    Step(s, t, p, d) && Child(s.nodes[p], Flip(d)) < |s.nodes| && Red(s.nodes[Child(s.nodes[p], Flip(d))])
  }

  /** The red sibling case at the nodes it touches, before the recolouring and rotation. */
  ghost predicate RedSibBefore(s: State, t: Handle, p: Handle, d: Side)
  {
    Sized(s) && t < |s.nodes| && p < |s.nodes| && p != s.sentinel
    && Child(s.nodes[p], d) == t && Child(s.nodes[p], Flip(d)) < |s.nodes|
    && var w := Child(s.nodes[p], Flip(d));
    w != s.sentinel && w != t && w != p && t != p && Red(s.nodes[w]) && !Red(s.nodes[p])
    && BH(s, t) + 1 == s.bh[p] && BH(s, w) == s.bh[p] && Balanced(s, w) && RedOk(s, w)
    && Child(s.nodes[w], d) != p && Child(s.nodes[w], d) != w
    && Child(s.nodes[w], Flip(d)) != p && Child(s.nodes[w], Flip(d)) != w
    && (p != s.root ==>
          var q := s.nodes[p].parent;
          q < |s.nodes| && q != p && q != w && Child(s.nodes[q], SideOf(s.nodes[q], p)) == p
          && Child(s.nodes[q], Flip(SideOf(s.nodes[q], p))) != p && Child(s.nodes[q], Flip(SideOf(s.nodes[q], p))) != w
          && Balanced(s, q) && RedOk(s, q))
  }

  /**
   * After the recolouring and rotation, at the same nodes: `p` is red and
   * holds `t` and `w`'s near child `b`, `w` is black and holds `p` and its
   * far child `c`, `p`'s old parent `q` holds `w`; nothing else changes
   * colour, children or black height.
   */
  ghost predicate RedSibAfter(s: State, t: Handle, p: Handle, d: Side, r: State)
    requires Sized(s) && t < |s.nodes| && p < |s.nodes| && Child(s.nodes[p], Flip(d)) < |s.nodes|
  {
    var w := Child(s.nodes[p], Flip(d));
    var q := s.nodes[p].parent;
    Sized(r) && |r.nodes| == |s.nodes| && r.sentinel == s.sentinel && r.bh == s.bh
    && r.order == s.order && r.pos == s.pos && r.root == (if p == s.root then w else s.root)
    && Child(r.nodes[p], d) == t && Child(r.nodes[p], Flip(d)) == Child(s.nodes[w], d)
    && Child(r.nodes[w], d) == p && Child(r.nodes[w], Flip(d)) == Child(s.nodes[w], Flip(d))
    && r.nodes[t].parent == p && Width(r, t) == Width(s, t)
    && Red(r.nodes[p]) && !Red(r.nodes[w])
    && (forall m :: 0 <= m < |s.nodes| ==> r.nodes[m].key == s.nodes[m].key)
    && (forall m :: 0 <= m < |s.nodes| && m != p && m != w ==> r.nodes[m].color == s.nodes[m].color)
    && (forall m :: 0 <= m < |s.nodes| && m != p && m != w && (p == s.root || m != q) ==>
          r.nodes[m].left == s.nodes[m].left && r.nodes[m].right == s.nodes[m].right)
    && (p != s.root ==>
          q < |s.nodes| && Child(r.nodes[q], SideOf(s.nodes[q], p)) == w
          && Child(r.nodes[q], Flip(SideOf(s.nodes[q], p))) == Child(s.nodes[q], Flip(SideOf(s.nodes[q], p))))
  }

  lemma RedSibBeforeHolds(s: State, t: Handle, p: Handle, d: Side)
    requires RedSibCase(s, t, p, d)
    ensures RedSibBefore(s, t, p, d)
  {
    StepFacts(s, t, p, d);
    var w := Child(s.nodes[p], Flip(d));
    assert NodeOk(s, w);
    if p != s.root {
      Grand(s, t, p, d);
      var q := s.nodes[p].parent;
      assert NodeOk(s, q);
    }
  }

  /** After the recolouring of the red sibling case, `p` can be rotated towards `t`. */
  lemma RedSibReady(s: State, t: Handle, p: Handle, d: Side)
    requires RedSibCase(s, t, p, d)
    ensures var s1 := Paint(Paint(s, Child(s.nodes[p], Flip(d)), BlackByte), p, RedByte);
      Shape(s1) && SameLinks(s, s1) && s1.bh == s.bh && Rotatable(s1, d, p)
  {
    StepFacts(s, t, p, d);
    var w := Child(s.nodes[p], Flip(d));
    var s0 := Paint(s, w, BlackByte);
    var s1 := Paint(s0, p, RedByte);
    PaintSameLinks(s, w, BlackByte);
    PaintSameLinks(s0, p, RedByte);
    SameLinksShape(s, s1);
    CanRotate(s1, d, p);
  }

  /** The red sibling's children are real nodes, distinct from `t`. */
  lemma RedSibNephews(s: State, t: Handle, p: Handle, d: Side)
    requires RedSibCase(s, t, p, d)
    ensures var w := Child(s.nodes[p], Flip(d));
      var b := Child(s.nodes[w], d);
      b != s.sentinel && b != t && b != p && b != w
  {
    StepFacts(s, t, p, d);
    var w := Child(s.nodes[p], Flip(d));
    assert NodeOk(s, w);
    var b := Child(s.nodes[w], d);
    ChildOf(s, w, d);
    if t != s.sentinel {
      assert NodeOk(s, t);
    }
  }

  /** `s1` has the links and black heights of `s`, and its colours outside `touched`. */
  ghost predicate Recoloured(s: State, s1: State, touched: set<Handle>)
  {
    SameLinks(s, s1) && s1.bh == s.bh
    && forall m :: 0 <= m < |s.nodes| && m !in touched ==> s1.nodes[m].color == s.nodes[m].color
  }

  /** Two colour writes recolour two nodes. */
  lemma PaintTwice(s: State, a: Handle, ca: Byte, b: Handle, cb: Byte)
    requires a < |s.nodes| && b < |s.nodes|
    ensures var s1 := Paint(Paint(s, a, ca), b, cb);
      Recoloured(s, s1, {a, b}) && s1.nodes[b].color == cb && (a != b ==> s1.nodes[a].color == ca)
  {
    PaintSameLinks(s, a, ca);
    PaintSameLinks(Paint(s, a, ca), b, cb);
  }

  /** A rotation of a recoloured state changes no key and no colour of it. */
  lemma RecolouredColours(s: State, s1: State, touched: set<Handle>, d: Side, x: Handle, r: State)
    requires Sized(s) && Recoloured(s, s1, touched) && Rotatable(s1, d, x) && RotationOf(s1, d, x, r)
    ensures Sized(r) && |r.nodes| == |s.nodes| && r.sentinel == s.sentinel && r.bh == s.bh
    ensures r.order == s.order && r.pos == s.pos
    ensures forall m :: 0 <= m < |s.nodes| ==> r.nodes[m].key == s.nodes[m].key && r.nodes[m].color == s1.nodes[m].color
    ensures forall m :: 0 <= m < |s.nodes| && m !in touched ==> r.nodes[m].color == s.nodes[m].color
  {
    RotatedKeysColours(s1, d, x, r);
  }

  /** The recolouring and rotation change no key, and colours only at `p` and `w`. */
  lemma RedSibColours(s: State, s1: State, p: Handle, d: Side, r: State)
    requires Sized(s) && p < |s.nodes| && Child(s.nodes[p], Flip(d)) < |s.nodes|
    requires var w := Child(s.nodes[p], Flip(d));
      Recoloured(s, s1, {w, p}) && Red(s1.nodes[p]) && !Red(s1.nodes[w])
    requires Rotatable(s1, d, p) && RotationOf(s1, d, p, r)
    ensures var w := Child(s.nodes[p], Flip(d));
      Sized(r) && |r.nodes| == |s.nodes| && r.sentinel == s.sentinel && r.bh == s.bh
      && r.order == s.order && r.pos == s.pos && r.root == (if p == s.root then w else s.root)
      && Red(r.nodes[p]) && !Red(r.nodes[w])
      && (forall m :: 0 <= m < |s.nodes| ==> r.nodes[m].key == s.nodes[m].key)
      && (forall m :: 0 <= m < |s.nodes| && m != p && m != w ==> r.nodes[m].color == s.nodes[m].color)
  {
    var w := Child(s.nodes[p], Flip(d));
    RecolouredColours(s, s1, {w, p}, d, p, r);
  }

  /**
   * A rotation of a recoloured state `s1`, described in terms of the links
   * of `s`: the records of `x`, its far child `y` and `x`'s parent `q`
   * change as `RotationLinks` says, every other record keeps its children.
   */
  lemma RecolouredRotation(s: State, s1: State, d: Side, x: Handle, r: State)
    requires Shape(s) && SameLinks(s, s1) && Rotatable(s1, d, x) && RotationOf(s1, d, x, r)
    ensures var y := Child(s.nodes[x], Flip(d));
      var b := Child(s.nodes[y], d);
      var q := s.nodes[x].parent;
      |r.nodes| == |s.nodes| && r.root == (if x == s.root then y else s.root)
      && Child(r.nodes[x], d) == Child(s.nodes[x], d) && Child(r.nodes[x], Flip(d)) == b
      && Child(r.nodes[y], d) == x && Child(r.nodes[y], Flip(d)) == Child(s.nodes[y], Flip(d))
      && r.nodes[x].parent == y && r.nodes[y].parent == q
      && (x != s.root ==>
            q < |s.nodes| && Child(r.nodes[q], SideOf(s.nodes[q], x)) == y
            && Child(r.nodes[q], Flip(SideOf(s.nodes[q], x))) == Child(s.nodes[q], Flip(SideOf(s.nodes[q], x))))
      && (forall m :: 0 <= m < |s.nodes| && m != x && m != y && (x == s.root || m != q) ==>
            r.nodes[m].left == s.nodes[m].left && r.nodes[m].right == s.nodes[m].right)
      && (forall m :: 0 <= m < |s.nodes| && m != x && m != y && (m != b || b == s.sentinel) ==>
            r.nodes[m].parent == s.nodes[m].parent)
  {
    RotationLinks(s1, d, x, r);
    var y := Child(s.nodes[x], Flip(d));
    assert Child(s1.nodes[x], d) == Child(s.nodes[x], d) && Child(s1.nodes[x], Flip(d)) == y;
    assert Child(s1.nodes[y], d) == Child(s.nodes[y], d) && Child(s1.nodes[y], Flip(d)) == Child(s.nodes[y], Flip(d));
    if x != s.root {
      var q := s.nodes[x].parent;
      assert s1.nodes[x].parent == q;
      assert s1.nodes[q].left == s.nodes[q].left && s1.nodes[q].right == s.nodes[q].right;
    }
  }

  /** The rotation relinks `p`, `w`, `t` and `p`'s parent as the red sibling case needs. */
  lemma RedSibLinksTouched(s: State, s1: State, t: Handle, p: Handle, d: Side, r: State)
    requires RedSibCase(s, t, p, d) && SameLinks(s, s1) && Rotatable(s1, d, p) && RotationOf(s1, d, p, r)
    ensures var w := Child(s.nodes[p], Flip(d));
      var q := s.nodes[p].parent;
      |r.nodes| == |s.nodes|
      && Child(r.nodes[p], d) == t && Child(r.nodes[p], Flip(d)) == Child(s.nodes[w], d)
      && Child(r.nodes[w], d) == p && Child(r.nodes[w], Flip(d)) == Child(s.nodes[w], Flip(d))
      && r.nodes[t].parent == p && Width(r, t) == Width(s, t)
      && (p != s.root ==>
            q < |s.nodes| && Child(r.nodes[q], SideOf(s.nodes[q], p)) == w
            && Child(r.nodes[q], Flip(SideOf(s.nodes[q], p))) == Child(s.nodes[q], Flip(SideOf(s.nodes[q], p))))
  {
    StepFacts(s, t, p, d);
    RedSibNephews(s, t, p, d);
    RecolouredRotation(s, s1, d, p, r);
  }

  /** Every other record keeps its children. */
  lemma RedSibLinksOther(s: State, s1: State, t: Handle, p: Handle, d: Side, r: State)
    requires RedSibCase(s, t, p, d) && SameLinks(s, s1) && Rotatable(s1, d, p) && RotationOf(s1, d, p, r)
    ensures var w := Child(s.nodes[p], Flip(d));
      var q := s.nodes[p].parent;
      |r.nodes| == |s.nodes|
      && (forall m :: 0 <= m < |s.nodes| && m != p && m != w && (p == s.root || m != q) ==>
            r.nodes[m].left == s.nodes[m].left && r.nodes[m].right == s.nodes[m].right)
  {
    RecolouredRotation(s, s1, d, p, r);
  }

  lemma RedSibAfterHolds(s: State, t: Handle, p: Handle, d: Side, r: State)
    requires RedSibCase(s, t, p, d)
    requires Rotatable(Paint(Paint(s, Child(s.nodes[p], Flip(d)), BlackByte), p, RedByte), d, p)
    requires RotationOf(Paint(Paint(s, Child(s.nodes[p], Flip(d)), BlackByte), p, RedByte), d, p, r)
    ensures RedSibAfter(s, t, p, d, r)
  {
    var w := Child(s.nodes[p], Flip(d));
    var s1 := Paint(Paint(s, w, BlackByte), p, RedByte);
    StepFacts(s, t, p, d);
    PaintTwice(s, w, BlackByte, p, RedByte);
    RedSibColours(s, s1, p, d, r);
    RedSibLinksTouched(s, s1, t, p, d, r);
    RedSibLinksOther(s, s1, t, p, d, r);
  }

  ghost predicate RedSibLocal(s: State, t: Handle, p: Handle, d: Side, r: State)
  {
    RedSibBefore(s, t, p, d) && RedSibAfter(s, t, p, d, r)
  }

  /** `t` is still one level short below `p`, and its new sibling is black. */
  lemma RedSibAtP(s: State, t: Handle, p: Handle, d: Side, r: State)
    requires RedSibLocal(s, t, p, d, r)
    ensures var b := Child(r.nodes[p], Flip(d));
      b < |r.nodes| && BH(r, t) + 1 == r.bh[p] && BH(r, b) == r.bh[p] && !Red(r.nodes[b])
  {
  }

  lemma RedSibAtW(s: State, t: Handle, p: Handle, d: Side, r: State)
    requires RedSibLocal(s, t, p, d, r)
    ensures Balanced(r, Child(s.nodes[p], Flip(d))) && RedOk(r, Child(s.nodes[p], Flip(d)))
  {
  }

  lemma RedSibAtQ(s: State, t: Handle, p: Handle, d: Side, r: State)
    requires RedSibLocal(s, t, p, d, r) && p != s.root
    ensures Balanced(r, s.nodes[p].parent) && RedOk(r, s.nodes[p].parent)
  {
  }

  lemma RedSibElsewhere(s: State, t: Handle, p: Handle, d: Side, r: State, n: Handle)
    requires RedSibCase(s, t, p, d) && RedSibAfter(s, t, p, d, r)
    requires Linked(s, n) && n != p && n != Child(s.nodes[p], Flip(d)) && (p == s.root || n != s.nodes[p].parent)
    ensures Balanced(r, n) && RedOk(r, n)
  {
    StepFacts(s, t, p, d);
    var w := Child(s.nodes[p], Flip(d));
    assert NodeOk(s, n);
    if n != t {
      assert Balanced(s, n) && RedOk(s, n);
    }
    if p == s.root {
      RootNotChild(s, n);
    }
    var nd := s.nodes[n];
    assert nd.left != w && nd.right != w;
    assert nd.left != p && nd.right != p;
    Unchanged(s, r, n);
  }

  /** After the red sibling case every node but `t` and `p` keeps the rules. */
  lemma RedSibEveryNode(s: State, t: Handle, p: Handle, d: Side, r: State)
    requires RedSibCase(s, t, p, d) && RedSibLocal(s, t, p, d, r)
    ensures forall n {:trigger Balanced(r, n)} {:trigger RedOk(r, n)} ::
      Linked(r, n) && n != t && n != p ==> Balanced(r, n) && RedOk(r, n)
  {
    var w := Child(s.nodes[p], Flip(d));
    RedSibAtW(s, t, p, d, r);
    if p != s.root {
      RedSibAtQ(s, t, p, d, r);
    }
    forall n: Handle | Linked(r, n) && n != t && n != p ensures Balanced(r, n) && RedOk(r, n) {
      if n != w && (p == s.root || n != s.nodes[p].parent) {
        RedSibElsewhere(s, t, p, d, r, n);
      }
    }
  }

  /** The red sibling case keeps the loop invariant with the same `t`. */
  lemma RedSibFix(s: State, t: Handle, p: Handle, d: Side, r: State)
    requires RedSibCase(s, t, p, d) && RedSibLocal(s, t, p, d, r) && Shape(r)
    ensures DelFix(r, t) && t != r.root && r.nodes[t].parent == p && SideOf(r.nodes[p], t) == d
  {
    var w := Child(s.nodes[p], Flip(d));
    StepFacts(s, t, p, d);
    RedSibAtP(s, t, p, d, r);
    RedSibEveryNode(s, t, p, d, r);
    if t != s.sentinel {
      RedSibElsewhere(s, t, p, d, r, t);
    }
    RootNotChild(s, p);
  }

  /**
   * The sibling `w` is red: `w` turns black, `p` red, and a rotation at `p`
   * lifts `w` into its place. `t` stays below `p`, one level short, and now
   * has a black sibling.
   */
  lemma DelRedSibling(s: State, t: Handle, p: Handle, d: Side, r: State)
    requires RedSibCase(s, t, p, d)
    requires Rotatable(Paint(Paint(s, Child(s.nodes[p], Flip(d)), BlackByte), p, RedByte), d, p)
    requires RotationOf(Paint(Paint(s, Child(s.nodes[p], Flip(d)), BlackByte), p, RedByte), d, p, r)
    ensures DelFix(r, t) && t != r.root && r.nodes[t].parent == p && SideOf(r.nodes[p], t) == d
    ensures Child(r.nodes[p], Flip(d)) < |r.nodes| && !Red(r.nodes[Child(r.nodes[p], Flip(d))])
    ensures KeysKept(s, r) && Width(r, t) == Width(s, t) && !Red(r.nodes[t])
  {
    var w := Child(s.nodes[p], Flip(d));
    var s1 := Paint(Paint(s, w, BlackByte), p, RedByte);
    RedSibReady(s, t, p, d);
    RotatedShape(s1, d, p, r);
    RedSibBeforeHolds(s, t, p, d);
    RedSibAfterHolds(s, t, p, d, r);
    RedSibAtP(s, t, p, d, r);
    RedSibFix(s, t, p, d, r);
  }

  // ---------------------------------------------------------------------------
  // Sibling black, its far child black and near child red: rotate at `w`

  ghost predicate NearCase(s: State, t: Handle, p: Handle, d: Side)
  {
    Step(s, t, p, d) && Child(s.nodes[p], Flip(d)) < |s.nodes|
    && var w := Child(s.nodes[p], Flip(d));
    !Red(s.nodes[w]) && Child(s.nodes[w], d) < |s.nodes| && Child(s.nodes[w], Flip(d)) < |s.nodes|
    && Red(s.nodes[Child(s.nodes[w], d)]) && !Red(s.nodes[Child(s.nodes[w], Flip(d))])
  }

  /** The near case at the nodes it touches, before the recolouring and rotation. */
  ghost predicate NearBefore(s: State, t: Handle, p: Handle, d: Side)
  {
    Sized(s) && t < |s.nodes| && p < |s.nodes| && p != s.sentinel && t != p
    && Child(s.nodes[p], d) == t && Child(s.nodes[p], Flip(d)) < |s.nodes|
    && var w := Child(s.nodes[p], Flip(d));
    w != s.sentinel && w != t && w != p && !Red(s.nodes[w])
    && Child(s.nodes[w], d) < |s.nodes| && Child(s.nodes[w], Flip(d)) < |s.nodes|
    && var n := Child(s.nodes[w], d);
    var f := Child(s.nodes[w], Flip(d));
    n != s.sentinel && n != t && n != p && n != w && f != p && f != w && f != n
    && Red(s.nodes[n]) && !Red(s.nodes[f])
    && Child(s.nodes[n], d) < |s.nodes| && Child(s.nodes[n], Flip(d)) < |s.nodes|
    && Child(s.nodes[n], d) != w && Child(s.nodes[n], d) != n && Child(s.nodes[n], d) != p
    && Child(s.nodes[n], Flip(d)) != w && Child(s.nodes[n], Flip(d)) != n && Child(s.nodes[n], Flip(d)) != p
    && BH(s, t) + 1 == s.bh[p] && BH(s, w) == s.bh[p] && (Red(s.nodes[p]) ==> !Red(s.nodes[w]))
    && Balanced(s, w) && Balanced(s, n) && RedOk(s, n)
  }

  /**
   * After the recolouring and rotation, at the same nodes: the near child
   * `n` is black and takes `w`'s place below `p`, holding its own `d`-side
   * child and `w`; `w` is red and holds `n`'s other child and the far child
   * `f`; nothing else changes colour, children or black height.
   */
  ghost predicate NearAfter(s: State, t: Handle, p: Handle, d: Side, r: State)
    requires NearBefore(s, t, p, d)
  {
    var w := Child(s.nodes[p], Flip(d));
    var n := Child(s.nodes[w], d);
    Sized(r) && |r.nodes| == |s.nodes| && r.sentinel == s.sentinel && r.bh == s.bh
    && r.order == s.order && r.pos == s.pos && r.root == s.root
    && Child(r.nodes[p], d) == t && Child(r.nodes[p], Flip(d)) == n
    && Child(r.nodes[n], d) == Child(s.nodes[n], d) && Child(r.nodes[n], Flip(d)) == w
    && Child(r.nodes[w], d) == Child(s.nodes[n], Flip(d)) && Child(r.nodes[w], Flip(d)) == Child(s.nodes[w], Flip(d))
    && r.nodes[t].parent == p && Width(r, t) == Width(s, t)
    && !Red(r.nodes[n]) && Red(r.nodes[w])
    && (forall m :: 0 <= m < |s.nodes| ==> r.nodes[m].key == s.nodes[m].key)
    && (forall m :: 0 <= m < |s.nodes| && m != n && m != w ==> r.nodes[m].color == s.nodes[m].color)
    && (forall m :: 0 <= m < |s.nodes| && m != p && m != w && m != n ==>
          r.nodes[m].left == s.nodes[m].left && r.nodes[m].right == s.nodes[m].right)
  }

  /** The nodes around the near case are distinct where they need to be. */
  lemma NearDistinct(s: State, t: Handle, p: Handle, d: Side)
    requires NearCase(s, t, p, d)
    ensures var w := Child(s.nodes[p], Flip(d));
      var n := Child(s.nodes[w], d);
      var f := Child(s.nodes[w], Flip(d));
      Linked(s, w) && Linked(s, n) && s.nodes[n].parent == w && s.nodes[w].parent == p
      && n != t && n != p && n != w && f != p && f != w && f != n
      && Child(s.nodes[n], d) < |s.nodes| && Child(s.nodes[n], Flip(d)) < |s.nodes|
      && Child(s.nodes[n], d) != w && Child(s.nodes[n], d) != n && Child(s.nodes[n], d) != p
      && Child(s.nodes[n], Flip(d)) != w && Child(s.nodes[n], Flip(d)) != n && Child(s.nodes[n], Flip(d)) != p
  {
    StepFacts(s, t, p, d);
    var w := Child(s.nodes[p], Flip(d));
    assert NodeOk(s, w);
    var n := Child(s.nodes[w], d);
    ChildOf(s, w, d);
    assert NodeOk(s, n);
    RootNotChild(s, p);
    RootNotChild(s, w);
    ParentWider(s, n);
    ParentWider(s, w);
    if t != s.sentinel {
      assert NodeOk(s, t);
    }
  }

  lemma NearBeforeHolds(s: State, t: Handle, p: Handle, d: Side)
    requires NearCase(s, t, p, d)
    ensures NearBefore(s, t, p, d)
  {
    StepFacts(s, t, p, d);
    NearDistinct(s, t, p, d);
    var w := Child(s.nodes[p], Flip(d));
    var n := Child(s.nodes[w], d);
    assert Balanced(s, n) && RedOk(s, n);
  }

  /** After the recolouring of the near case, `w` can be rotated away from `t`. */
  lemma NearReady(s: State, t: Handle, p: Handle, d: Side)
    requires NearCase(s, t, p, d)
    ensures var w := Child(s.nodes[p], Flip(d));
      var s1 := Paint(Paint(s, Child(s.nodes[w], d), BlackByte), w, RedByte);
      Shape(s1) && SameLinks(s, s1) && s1.bh == s.bh && Rotatable(s1, Flip(d), w)
  {
    NearDistinct(s, t, p, d);
    var w := Child(s.nodes[p], Flip(d));
    var n := Child(s.nodes[w], d);
    var s0 := Paint(s, n, BlackByte);
    var s1 := Paint(s0, w, RedByte);
    PaintSameLinks(s, n, BlackByte);
    PaintSameLinks(s0, w, RedByte);
    SameLinksShape(s, s1);
    assert Flip(Flip(d)) == d;
    CanRotate(s1, Flip(d), w);
  }

  /** The recolouring and rotation change no key, and colours only at `n` and `w`. */
  lemma NearColours(s: State, s1: State, w: Handle, d: Side, r: State)
    requires Sized(s) && w < |s.nodes| && Child(s.nodes[w], d) < |s.nodes|
    requires var n := Child(s.nodes[w], d);
      Recoloured(s, s1, {n, w}) && !Red(s1.nodes[n]) && Red(s1.nodes[w])
    requires Rotatable(s1, Flip(d), w) && RotationOf(s1, Flip(d), w, r)
    ensures var n := Child(s.nodes[w], d);
      Sized(r) && |r.nodes| == |s.nodes| && r.sentinel == s.sentinel && r.bh == s.bh
      && r.order == s.order && r.pos == s.pos
      && !Red(r.nodes[n]) && Red(r.nodes[w])
      && (forall m :: 0 <= m < |s.nodes| ==> r.nodes[m].key == s.nodes[m].key)
      && (forall m :: 0 <= m < |s.nodes| && m != n && m != w ==> r.nodes[m].color == s.nodes[m].color)
  {
    var n := Child(s.nodes[w], d);
    RecolouredColours(s, s1, {n, w}, Flip(d), w, r);
  }

  /** The rotation at `w` relinks `p`, `w`, `n` and keeps `t` below `p`. */
  lemma NearLinksTouched(s: State, s1: State, t: Handle, p: Handle, d: Side, r: State)
    requires NearCase(s, t, p, d) && SameLinks(s, s1)
    requires Rotatable(s1, Flip(d), Child(s.nodes[p], Flip(d)))
    requires RotationOf(s1, Flip(d), Child(s.nodes[p], Flip(d)), r)
    ensures var w := Child(s.nodes[p], Flip(d));
      var n := Child(s.nodes[w], d);
      |r.nodes| == |s.nodes| && r.root == s.root
      && Child(r.nodes[p], d) == t && Child(r.nodes[p], Flip(d)) == n
      && Child(r.nodes[n], d) == Child(s.nodes[n], d) && Child(r.nodes[n], Flip(d)) == w
      && Child(r.nodes[w], d) == Child(s.nodes[n], Flip(d)) && Child(r.nodes[w], Flip(d)) == Child(s.nodes[w], Flip(d))
      && r.nodes[t].parent == p
  {
    StepFacts(s, t, p, d);
    NearDistinct(s, t, p, d);
    var w := Child(s.nodes[p], Flip(d));
    var n := Child(s.nodes[w], d);
    RootNotChild(s, p);
    assert Flip(Flip(d)) == d;
    assert SideOf(s.nodes[p], w) == Flip(d);
    if t != s.sentinel {
      assert NodeOk(s, t);
      var b := Child(s.nodes[n], Flip(d));
      if b != s.sentinel {
        ChildOf(s, n, Flip(d));
      }
    }
    RecolouredRotation(s, s1, Flip(d), w, r);
  }

  /** The rotation at `w` keeps every other record's children. */
  lemma NearLinksOther(s: State, s1: State, w: Handle, d: Side, r: State)
    requires Shape(s) && SameLinks(s, s1) && Rotatable(s1, Flip(d), w) && RotationOf(s1, Flip(d), w, r)
    requires w != s.root && w < |s.nodes|
    ensures var n := Child(s.nodes[w], d);
      var p := s.nodes[w].parent;
      |r.nodes| == |s.nodes|
      && (forall m :: 0 <= m < |s.nodes| && m != p && m != w && m != n ==>
            r.nodes[m].left == s.nodes[m].left && r.nodes[m].right == s.nodes[m].right)
  {
    assert Flip(Flip(d)) == d;
    RecolouredRotation(s, s1, Flip(d), w, r);
  }

  /** The rotation at `w` keeps `t`'s range. */
  lemma NearWidth(s: State, s1: State, t: Handle, p: Handle, d: Side, r: State)
    requires NearCase(s, t, p, d) && SameLinks(s, s1)
    requires Rotatable(s1, Flip(d), Child(s.nodes[p], Flip(d)))
    requires RotationOf(s1, Flip(d), Child(s.nodes[p], Flip(d)), r)
    ensures Width(r, t) == Width(s, t)
  {
    NearDistinct(s, t, p, d);
    assert Flip(Flip(d)) == d;
  }

  /** The near case's recolouring `s1` and rotation leave `NearAfter`. */
  lemma NearAfterHolds(s: State, s1: State, t: Handle, p: Handle, d: Side, r: State)
    requires NearCase(s, t, p, d) && NearBefore(s, t, p, d)
    requires var w := Child(s.nodes[p], Flip(d));
      var n := Child(s.nodes[w], d);
      Recoloured(s, s1, {n, w}) && !Red(s1.nodes[n]) && Red(s1.nodes[w])
      && Rotatable(s1, Flip(d), w) && RotationOf(s1, Flip(d), w, r)
    ensures NearAfter(s, t, p, d, r)
  {
    var w := Child(s.nodes[p], Flip(d));
    NearColours(s, s1, w, d, r);
    NearLinksTouched(s, s1, t, p, d, r);
    RootNotChild(s, p);
    NearLinksOther(s, s1, w, d, r);
    NearWidth(s, s1, t, p, d, r);
  }

  ghost predicate NearLocal(s: State, t: Handle, p: Handle, d: Side, r: State)
  {
    NearBefore(s, t, p, d) && NearAfter(s, t, p, d, r)
  }

  /** The old near child `n`, now black, keeps the rules with `w` below it. */
  lemma NearAtN(s: State, t: Handle, p: Handle, d: Side, r: State)
    requires NearLocal(s, t, p, d, r)
    ensures var n := Child(s.nodes[Child(s.nodes[p], Flip(d))], d);
      Balanced(r, n) && RedOk(r, n)
  {
  }

  /** `w`, now red, has two black children of its own black height. */
  lemma NearAtW(s: State, t: Handle, p: Handle, d: Side, r: State)
    requires NearLocal(s, t, p, d, r)
    ensures Balanced(r, Child(s.nodes[p], Flip(d))) && RedOk(r, Child(s.nodes[p], Flip(d)))
  {
  }

  /** `t` is still one level short below `p`; its new sibling is black with a red far child. */
  lemma NearAtP(s: State, t: Handle, p: Handle, d: Side, r: State)
    requires NearLocal(s, t, p, d, r)
    ensures var n := Child(r.nodes[p], Flip(d));
      n < |r.nodes| && BH(r, t) + 1 == r.bh[p] && BH(r, n) == r.bh[p] && !Red(r.nodes[n])
      && Child(r.nodes[n], Flip(d)) < |r.nodes| && Red(r.nodes[Child(r.nodes[n], Flip(d))])
  {
  }

  lemma NearElsewhere(s: State, t: Handle, p: Handle, d: Side, r: State, m: Handle)
    requires NearCase(s, t, p, d) && NearLocal(s, t, p, d, r)
    requires Linked(s, m) && m != p && m != Child(s.nodes[p], Flip(d))
    requires m != Child(s.nodes[Child(s.nodes[p], Flip(d))], d)
    ensures Balanced(r, m) && RedOk(r, m)
  {
    NearDistinct(s, t, p, d);
    var w := Child(s.nodes[p], Flip(d));
    var n := Child(s.nodes[w], d);
    assert NodeOk(s, m);
    if m != t {
      assert Balanced(s, m) && RedOk(s, m);
    }
    var md := s.nodes[m];
    assert md.left != w && md.right != w;
    assert md.left != n && md.right != n;
    Unchanged(s, r, m);
  }

  /** After the near case every node but `t` and `p` keeps the rules. */
  lemma NearEveryNode(s: State, t: Handle, p: Handle, d: Side, r: State)
    requires NearCase(s, t, p, d) && NearLocal(s, t, p, d, r)
    ensures forall m {:trigger Balanced(r, m)} {:trigger RedOk(r, m)} ::
      Linked(r, m) && m != t && m != p ==> Balanced(r, m) && RedOk(r, m)
  {
    var w := Child(s.nodes[p], Flip(d));
    var n := Child(s.nodes[w], d);
    NearAtW(s, t, p, d, r);
    NearAtN(s, t, p, d, r);
    forall m: Handle | Linked(r, m) && m != t && m != p ensures Balanced(r, m) && RedOk(r, m) {
      if m != w && m != n {
        NearElsewhere(s, t, p, d, r, m);
      }
    }
  }

  /** The near case keeps the loop invariant with the same `t`. */
  lemma NearFix(s: State, t: Handle, p: Handle, d: Side, r: State)
    requires NearCase(s, t, p, d) && NearLocal(s, t, p, d, r) && Shape(r)
    ensures DelFix(r, t) && t != r.root && r.nodes[t].parent == p && SideOf(r.nodes[p], t) == d
  {
    NearDistinct(s, t, p, d);
    RootNotChild(s, p);
    RootNotChild(s, Child(s.nodes[p], Flip(d)));
    NearAtP(s, t, p, d, r);
    NearEveryNode(s, t, p, d, r);
    if t != s.sentinel {
      NearElsewhere(s, t, p, d, r, t);
    }
  }

  /**
   * The sibling `w` is black, its far child black and its near child `n`
   * red: `n` turns black, `w` red, and a rotation at `w` lifts `n` into its
   * place. `t` stays below `p`, one level short, and its new sibling is
   * black with a red far child.
   */
  lemma DelNearRed(s: State, t: Handle, p: Handle, d: Side, r: State)
    requires NearCase(s, t, p, d)
    requires var w := Child(s.nodes[p], Flip(d));
      var s1 := Paint(Paint(s, Child(s.nodes[w], d), BlackByte), w, RedByte);
      Rotatable(s1, Flip(d), w) && RotationOf(s1, Flip(d), w, r)
    ensures DelFix(r, t) && t != r.root && r.nodes[t].parent == p && SideOf(r.nodes[p], t) == d
    ensures var w := Child(r.nodes[p], Flip(d));
      w < |r.nodes| && !Red(r.nodes[w])
      && Child(r.nodes[w], Flip(d)) < |r.nodes| && Red(r.nodes[Child(r.nodes[w], Flip(d))])
    ensures KeysKept(s, r) && Width(r, t) == Width(s, t) && !Red(r.nodes[t])
  {
    var w := Child(s.nodes[p], Flip(d));
    var n := Child(s.nodes[w], d);
    var s1 := Paint(Paint(s, n, BlackByte), w, RedByte);
    NearReady(s, t, p, d);
    NearDistinct(s, t, p, d);
    PaintTwice(s, n, BlackByte, w, RedByte);
    RotatedShape(s1, Flip(d), w, r);
    NearBeforeHolds(s, t, p, d);
    NearAfterHolds(s, s1, t, p, d, r);
    NearAtP(s, t, p, d, r);
    NearFix(s, t, p, d, r);
  }

  // ---------------------------------------------------------------------------
  // Sibling black with a red far child: recolour, rotate at `p`, and stop

  ghost predicate FarCase(s: State, t: Handle, p: Handle, d: Side)
  {
    Step(s, t, p, d) && Child(s.nodes[p], Flip(d)) < |s.nodes|
    && var w := Child(s.nodes[p], Flip(d));
    !Red(s.nodes[w]) && Child(s.nodes[w], Flip(d)) < |s.nodes| && Red(s.nodes[Child(s.nodes[w], Flip(d))])
  }

  /** The far case at the nodes it touches, before the recolouring and rotation. */
  ghost predicate FarBefore(s: State, t: Handle, p: Handle, d: Side)
  {
    Sized(s) && t < |s.nodes| && p < |s.nodes| && p != s.sentinel && t != p
    && Child(s.nodes[p], d) == t && Child(s.nodes[p], Flip(d)) < |s.nodes|
    && var w := Child(s.nodes[p], Flip(d));
    w != s.sentinel && w != t && w != p && !Red(s.nodes[w])
    && Child(s.nodes[w], d) < |s.nodes| && Child(s.nodes[w], Flip(d)) < |s.nodes|
    && var f := Child(s.nodes[w], Flip(d));
    f != s.sentinel && f != t && f != p && f != w && Red(s.nodes[f])
    && s.nodes[w].parent == p && s.nodes[f].parent == w
    && Child(s.nodes[w], d) != p && Child(s.nodes[w], d) != w && Child(s.nodes[w], d) != f
    && s.nodes[f].left < |s.nodes| && s.nodes[f].right < |s.nodes|
    && s.nodes[f].left != p && s.nodes[f].left != w && s.nodes[f].left != f
    && s.nodes[f].right != p && s.nodes[f].right != w && s.nodes[f].right != f
    && BH(s, t) + 1 == s.bh[p] && BH(s, w) == s.bh[p] && s.bh[p] >= 1
    && Balanced(s, w) && Balanced(s, f) && RedOk(s, f)
    && (p == s.root ==> !Red(s.nodes[p]))
    && (p != s.root ==>
          var q := s.nodes[p].parent;
          q < |s.nodes| && q != p && q != w && q != f && Child(s.nodes[q], SideOf(s.nodes[q], p)) == p
          && Child(s.nodes[q], Flip(SideOf(s.nodes[q], p))) != p
          && Child(s.nodes[q], Flip(SideOf(s.nodes[q], p))) != w
          && Child(s.nodes[q], Flip(SideOf(s.nodes[q], p))) != f
          && Balanced(s, q) && RedOk(s, q))
  }

  /** The nodes around the far case are distinct where they need to be. */
  lemma FarDistinct(s: State, t: Handle, p: Handle, d: Side)
    requires FarCase(s, t, p, d)
    ensures var w := Child(s.nodes[p], Flip(d));
      var f := Child(s.nodes[w], Flip(d));
      Linked(s, f) && s.nodes[f].parent == w && f != t && f != p && f != w
      && Child(s.nodes[w], d) != p && Child(s.nodes[w], d) != w && Child(s.nodes[w], d) != f
      && s.nodes[f].left < |s.nodes| && s.nodes[f].right < |s.nodes|
      && s.nodes[f].left != p && s.nodes[f].left != w && s.nodes[f].left != f
      && s.nodes[f].right != p && s.nodes[f].right != w && s.nodes[f].right != f
  {
    StepFacts(s, t, p, d);
    var w := Child(s.nodes[p], Flip(d));
    assert NodeOk(s, w);
    var f := Child(s.nodes[w], Flip(d));
    ChildOf(s, w, Flip(d));
    assert NodeOk(s, f);
    RootNotChild(s, p);
    RootNotChild(s, w);
    ParentWider(s, f);
    ParentWider(s, w);
    if t != s.sentinel {
      assert NodeOk(s, t);
    }
  }

  /** `p`'s parent, when `p` is not the root, is a linked node that keeps the rules. */
  lemma FarGrand(s: State, t: Handle, p: Handle, d: Side)
    requires FarCase(s, t, p, d) && p != s.root
    ensures var w := Child(s.nodes[p], Flip(d));
      var f := Child(s.nodes[w], Flip(d));
      var q := s.nodes[p].parent;
      q < |s.nodes| && q != p && q != w && q != f && Child(s.nodes[q], SideOf(s.nodes[q], p)) == p
      && Child(s.nodes[q], Flip(SideOf(s.nodes[q], p))) != p
      && Child(s.nodes[q], Flip(SideOf(s.nodes[q], p))) != w
      && Child(s.nodes[q], Flip(SideOf(s.nodes[q], p))) != f
      && Balanced(s, q) && RedOk(s, q)
  {
    StepFacts(s, t, p, d);
    FarDistinct(s, t, p, d);
    Grand(s, t, p, d);
    var w := Child(s.nodes[p], Flip(d));
    var q := s.nodes[p].parent;
    assert NodeOk(s, q);
    RootNotChild(s, p);
    RootNotChild(s, w);
    ParentWider(s, p);
    ParentWider(s, w);
    ParentWider(s, Child(s.nodes[w], Flip(d)));
  }

  lemma FarBeforeHolds(s: State, t: Handle, p: Handle, d: Side)
    requires FarCase(s, t, p, d)
    ensures FarBefore(s, t, p, d)
  {
    StepFacts(s, t, p, d);
    FarDistinct(s, t, p, d);
    var w := Child(s.nodes[p], Flip(d));
    var f := Child(s.nodes[w], Flip(d));
    assert Balanced(s, f) && RedOk(s, f);
    if p != s.root {
      FarGrand(s, t, p, d);
    }
  }

  /**
   * After the recolouring, the rotation and the black height updates, at
   * the same nodes: `w` has taken `p`'s place and colour and holds `p` and
   * the far child `f`; `p` and `f` are black; `p` holds `t` and `w`'s near
   * child; `p`'s black height is one lower and `w`'s is `p`'s old one.
   */
  ghost predicate FarAfter(s: State, t: Handle, p: Handle, d: Side, r: State)
    requires FarBefore(s, t, p, d)
  {
    FarAfterPaint(s, p, d, r) && FarAfterLinks(s, t, p, d, r)
  }

  /** The far case's result at the colours, keys and black heights. */
  ghost predicate FarAfterPaint(s: State, p: Handle, d: Side, r: State)
    requires Sized(s) && p < |s.nodes| && Child(s.nodes[p], Flip(d)) < |s.nodes|
    requires Child(s.nodes[Child(s.nodes[p], Flip(d))], Flip(d)) < |s.nodes|
  {
    var w := Child(s.nodes[p], Flip(d));
    var f := Child(s.nodes[w], Flip(d));
    Sized(r) && |r.nodes| == |s.nodes| && r.sentinel == s.sentinel
    && r.order == s.order && r.pos == s.pos
    && r.bh == s.bh[p := s.bh[p] - 1][w := s.bh[p]]
    && !Red(r.nodes[p]) && !Red(r.nodes[f]) && r.nodes[w].color == s.nodes[p].color
    && (forall m :: 0 <= m < |s.nodes| ==> r.nodes[m].key == s.nodes[m].key)
    && (forall m :: 0 <= m < |s.nodes| && m != p && m != w && m != f ==> r.nodes[m].color == s.nodes[m].color)
  }

  /** The far case's result at the links. */
  ghost predicate FarAfterLinks(s: State, t: Handle, p: Handle, d: Side, r: State)
    requires Sized(s) && p < |s.nodes| && Child(s.nodes[p], Flip(d)) < |s.nodes|
  {
    var w := Child(s.nodes[p], Flip(d));
    var q := s.nodes[p].parent;
    |r.nodes| == |s.nodes| && r.root == (if p == s.root then w else s.root)
    && Child(r.nodes[p], d) == t && Child(r.nodes[p], Flip(d)) == Child(s.nodes[w], d)
    && Child(r.nodes[w], d) == p && Child(r.nodes[w], Flip(d)) == Child(s.nodes[w], Flip(d))
    && (forall m :: 0 <= m < |s.nodes| && m != p && m != w && (p == s.root || m != q) ==>
          r.nodes[m].left == s.nodes[m].left && r.nodes[m].right == s.nodes[m].right)
    && (p != s.root ==>
          q < |s.nodes| && Child(r.nodes[q], SideOf(s.nodes[q], p)) == w
          && Child(r.nodes[q], Flip(SideOf(s.nodes[q], p))) == Child(s.nodes[q], Flip(SideOf(s.nodes[q], p))))
  }

  /** Three colour writes to distinct nodes recolour those three. */
  lemma PaintThree(s: State, a: Handle, ca: Byte, b: Handle, cb: Byte, c: Handle, cc: Byte)
    requires a < |s.nodes| && b < |s.nodes| && c < |s.nodes| && a != b && a != c && b != c
    ensures var s1 := Paint(Paint(Paint(s, a, ca), b, cb), c, cc);
      Recoloured(s, s1, {a, b, c})
      && s1.nodes[a].color == ca && s1.nodes[b].color == cb && s1.nodes[c].color == cc
  {
    var s0 := Paint(Paint(s, a, ca), b, cb);
    PaintTwice(s, a, ca, b, cb);
    PaintSameLinks(s0, c, cc);
  }

  /** After the recolouring of the far case, `p` can be rotated towards `t`. */
  lemma FarReady(s: State, t: Handle, p: Handle, d: Side)
    requires FarCase(s, t, p, d)
    ensures var w := Child(s.nodes[p], Flip(d));
      var s1 := Paint(Paint(Paint(s, w, s.nodes[p].color), p, BlackByte), Child(s.nodes[w], Flip(d)), BlackByte);
      Shape(s1) && Recoloured(s, s1, {w, p, Child(s.nodes[w], Flip(d))}) && Rotatable(s1, d, p)
      && s1.nodes[w].color == s.nodes[p].color && !Red(s1.nodes[p])
      && !Red(s1.nodes[Child(s.nodes[w], Flip(d))])
  {
    StepFacts(s, t, p, d);
    FarDistinct(s, t, p, d);
    var w := Child(s.nodes[p], Flip(d));
    var f := Child(s.nodes[w], Flip(d));
    var s1 := Paint(Paint(Paint(s, w, s.nodes[p].color), p, BlackByte), f, BlackByte);
    PaintThree(s, w, s.nodes[p].color, p, BlackByte, f, BlackByte);
    SameLinksShape(s, s1);
    CanRotate(s1, d, p);
  }

  /** The far case's recolouring and rotation change no key, and colours only at `w`, `p` and `f`. */
  lemma FarColours(s: State, s1: State, p: Handle, d: Side, r: State)
    requires Sized(s) && p < |s.nodes| && Child(s.nodes[p], Flip(d)) < |s.nodes|
    requires var w := Child(s.nodes[p], Flip(d));
      Child(s.nodes[w], Flip(d)) < |s.nodes|
      && var f := Child(s.nodes[w], Flip(d));
      Recoloured(s, s1, {w, p, f}) && s1.nodes[w].color == s.nodes[p].color
      && !Red(s1.nodes[p]) && !Red(s1.nodes[f])
    requires Rotatable(s1, d, p) && RotationOf(s1, d, p, r)
    ensures var w := Child(s.nodes[p], Flip(d));
      var f := Child(s.nodes[w], Flip(d));
      Sized(r) && |r.nodes| == |s.nodes| && r.sentinel == s.sentinel && r.bh == s.bh
      && r.order == s.order && r.pos == s.pos
      && !Red(r.nodes[p]) && !Red(r.nodes[f]) && r.nodes[w].color == s.nodes[p].color
      && (forall m :: 0 <= m < |s.nodes| ==> r.nodes[m].key == s.nodes[m].key)
      && (forall m :: 0 <= m < |s.nodes| && m != p && m != w && m != f ==> r.nodes[m].color == s.nodes[m].color)
  {
    var w := Child(s.nodes[p], Flip(d));
    var f := Child(s.nodes[w], Flip(d));
    RecolouredColours(s, s1, {w, p, f}, d, p, r);
  }

  /** Updating the black heights of `p` and `w` after the rotation gives `FarAfterPaint`. */
  lemma FarRegrade(s: State, p: Handle, d: Side, r: State, r2: State)
    requires Sized(s) && p < |s.nodes| && Child(s.nodes[p], Flip(d)) < |s.nodes|
    requires Child(s.nodes[Child(s.nodes[p], Flip(d))], Flip(d)) < |s.nodes|
    requires var w := Child(s.nodes[p], Flip(d));
      var f := Child(s.nodes[w], Flip(d));
      Sized(r) && |r.nodes| == |s.nodes| && r.sentinel == s.sentinel && r.bh == s.bh
      && r.order == s.order && r.pos == s.pos
      && !Red(r.nodes[p]) && !Red(r.nodes[f]) && r.nodes[w].color == s.nodes[p].color
      && (forall m :: 0 <= m < |s.nodes| ==> r.nodes[m].key == s.nodes[m].key)
      && (forall m :: 0 <= m < |s.nodes| && m != p && m != w && m != f ==> r.nodes[m].color == s.nodes[m].color)
    requires r2 == r.(bh := s.bh[p := s.bh[p] - 1][Child(s.nodes[p], Flip(d)) := s.bh[p]])
    ensures FarAfterPaint(s, p, d, r2)
  {
  }

  /** The far case's rotation relinks `p`, `w` and `p`'s parent, and no other record's children. */
  lemma FarLinks(s: State, s1: State, t: Handle, p: Handle, d: Side, r: State, r2: State)
    requires Shape(s) && SameLinks(s, s1) && Rotatable(s1, d, p) && RotationOf(s1, d, p, r)
    requires p < |s.nodes| && Child(s.nodes[p], d) == t && r2.nodes == r.nodes && r2.root == r.root
    ensures FarAfterLinks(s, t, p, d, r2)
  {
    RecolouredRotation(s, s1, d, p, r);
  }

  /** The far case's recolouring `s1`, rotation `r` and black height updates `r2` leave `FarAfter`. */
  lemma FarAfterHolds(s: State, s1: State, t: Handle, p: Handle, d: Side, r: State, r2: State)
    requires Shape(s) && FarBefore(s, t, p, d)
    requires var w := Child(s.nodes[p], Flip(d));
      var f := Child(s.nodes[w], Flip(d));
      Recoloured(s, s1, {w, p, f}) && s1.nodes[w].color == s.nodes[p].color
      && !Red(s1.nodes[p]) && !Red(s1.nodes[f])
      && Rotatable(s1, d, p) && RotationOf(s1, d, p, r)
      && r2 == r.(bh := s.bh[p := s.bh[p] - 1][w := s.bh[p]])
    ensures FarAfter(s, t, p, d, r2)
  {
    FarColours(s, s1, p, d, r);
    FarRegrade(s, p, d, r, r2);
    FarLinks(s, s1, t, p, d, r, r2);
  }

  ghost predicate FarLocal(s: State, t: Handle, p: Handle, d: Side, r: State)
  {
    FarBefore(s, t, p, d) && FarAfter(s, t, p, d, r)
  }

  /** `p`, now black, holds `t` and `w`'s near child at one black height less. */
  lemma FarAtP(s: State, t: Handle, p: Handle, d: Side, r: State)
    requires FarLocal(s, t, p, d, r)
    ensures Balanced(r, p) && RedOk(r, p)
  {
  }

  /** The far child `f`, now black, keeps its children. */
  lemma FarAtF(s: State, t: Handle, p: Handle, d: Side, r: State)
    requires FarLocal(s, t, p, d, r)
    ensures var f := Child(s.nodes[Child(s.nodes[p], Flip(d))], Flip(d));
      Balanced(r, f) && RedOk(r, f)
  {
  }

  /** `w`, in `p`'s place and colour, holds two black nodes of equal black height. */
  lemma FarAtW(s: State, t: Handle, p: Handle, d: Side, r: State)
    requires FarLocal(s, t, p, d, r)
    ensures var w := Child(s.nodes[p], Flip(d));
      Balanced(r, w) && RedOk(r, w) && BH(r, w) == BH(s, p)
  {
  }

  /** `p`'s old parent sees `w` with `p`'s colour and black height in `p`'s slot. */
  lemma FarAtQ(s: State, t: Handle, p: Handle, d: Side, r: State)
    requires FarLocal(s, t, p, d, r) && p != s.root
    ensures Balanced(r, s.nodes[p].parent) && RedOk(r, s.nodes[p].parent)
  {
    FarAtW(s, t, p, d, r);
  }

  /** A node is not the child of anything but its parent. */
  lemma NotChild(s: State, m: Handle, c: Handle)
    requires Shape(s) && Linked(s, m) && c < |s.nodes| && c != s.sentinel && s.nodes[c].parent != m
    ensures s.nodes[m].left != c && s.nodes[m].right != c
  {
    assert NodeOk(s, m);
  }

  lemma FarElsewhere(s: State, t: Handle, p: Handle, d: Side, r: State, m: Handle)
    requires FarCase(s, t, p, d) && FarLocal(s, t, p, d, r)
    requires Linked(s, m) && m != p && m != Child(s.nodes[p], Flip(d))
    requires m != Child(s.nodes[Child(s.nodes[p], Flip(d))], Flip(d))
    requires p == s.root || m != s.nodes[p].parent
    ensures Balanced(r, m) && RedOk(r, m)
  {
    var w := Child(s.nodes[p], Flip(d));
    var f := Child(s.nodes[w], Flip(d));
    if m != t {
      assert Balanced(s, m) && RedOk(s, m);
    }
    if p == s.root {
      RootNotChild(s, m);
    } else {
      NotChild(s, m, p);
    }
    NotChild(s, m, w);
    NotChild(s, m, f);
    Unchanged(s, r, m);
  }

  /** After the far case every linked node keeps the rules. */
  lemma FarEveryNode(s: State, t: Handle, p: Handle, d: Side, r: State)
    requires FarCase(s, t, p, d) && FarLocal(s, t, p, d, r)
    ensures forall m {:trigger Balanced(r, m)} {:trigger RedOk(r, m)} ::
      Linked(r, m) ==> Balanced(r, m) && RedOk(r, m)
  {
    var w := Child(s.nodes[p], Flip(d));
    var f := Child(s.nodes[w], Flip(d));
    FarAtP(s, t, p, d, r);
    FarAtW(s, t, p, d, r);
    FarAtF(s, t, p, d, r);
    if p != s.root {
      FarAtQ(s, t, p, d, r);
    }
    forall m: Handle | Linked(r, m) ensures Balanced(r, m) && RedOk(r, m) {
      if m != p && m != w && m != f && (p == s.root || m != s.nodes[p].parent) {
        FarElsewhere(s, t, p, d, r, m);
      }
    }
  }

  /** The far case ends the loop: the invariant holds with the root as `t`. */
  lemma FarFix(s: State, t: Handle, p: Handle, d: Side, r: State)
    requires FarCase(s, t, p, d) && FarLocal(s, t, p, d, r) && Shape(r)
    ensures DelFix(r, r.root)
  {
    StepFacts(s, t, p, d);
    FarDistinct(s, t, p, d);
    RootNotChild(s, p);
    RootNotChild(s, Child(s.nodes[p], Flip(d)));
    FarEveryNode(s, t, p, d, r);
  }

  /** The far case, from an abstract recolouring `s1`, ends in the loop invariant at the root. */
  lemma FarResult(s: State, s1: State, t: Handle, p: Handle, d: Side, r: State, r2: State)
    requires FarCase(s, t, p, d)
    requires var w := Child(s.nodes[p], Flip(d));
      var f := Child(s.nodes[w], Flip(d));
      Recoloured(s, s1, {w, p, f}) && s1.nodes[w].color == s.nodes[p].color
      && !Red(s1.nodes[p]) && !Red(s1.nodes[f])
      && Rotatable(s1, d, p) && RotationOf(s1, d, p, r)
      && r2 == r.(bh := s.bh[p := s.bh[p] - 1][w := s.bh[p]])
    ensures DelFix(r2, r2.root) && KeysKept(s, r2)
  {
    var w := Child(s.nodes[p], Flip(d));
    FarBeforeHolds(s, t, p, d);
    RotatedShape(s1, d, p, r);
    ShapeWithBh(r, s.bh[p := s.bh[p] - 1][w := s.bh[p]]);
    FarAfterHolds(s, s1, t, p, d, r, r2);
    FarFix(s, t, p, d, r2);
  }

  /**
   * The sibling `w` is black with a red far child `f`: `w` takes `p`'s
   * colour, `p` and `f` turn black, and a rotation at `p` lifts `w` into its
   * place. The missing black level is restored, so the loop ends at the
   * root; `p` loses one black level and `w` takes `p`'s old black height.
   */
  lemma DelFarRed(s: State, t: Handle, p: Handle, d: Side, r2: State)
    requires FarCase(s, t, p, d) && FarStep(s, p, d, r2)
    ensures DelFix(r2, r2.root) && KeysKept(s, r2) && Width(r2, r2.root) > Width(s, t)
  {
    var w := Child(s.nodes[p], Flip(d));
    var f := Child(s.nodes[w], Flip(d));
    var s1 := Paint(Paint(Paint(s, w, s.nodes[p].color), p, BlackByte), f, BlackByte);
    var r := r2.(bh := s.bh);
    assert r2 == r.(bh := s.bh[p := s.bh[p] - 1][w := s.bh[p]]);
    FarReady(s, t, p, d);
    FarResult(s, s1, t, p, d, r, r2);
    EndWidth(s, t, r2);
  }

  /**
   * `r` is `s` after the far case: `w` takes `p`'s colour, `p` and the far
   * child turn black, `p` is rotated towards side `d`, and `p` and `w`
   * exchange black heights, `p` losing the missing level.
   */
  ghost predicate FarStep(s: State, p: Handle, d: Side, r: State)
    requires Sized(s) && p < |s.nodes| && Child(s.nodes[p], Flip(d)) < |s.nodes|
    requires Child(s.nodes[Child(s.nodes[p], Flip(d))], Flip(d)) < |s.nodes|
  {
    var w := Child(s.nodes[p], Flip(d));
    var s1 := Paint(Paint(Paint(s, w, s.nodes[p].color), p, BlackByte), Child(s.nodes[w], Flip(d)), BlackByte);
    Rotatable(s1, d, p) && RotationOf(s1, d, p, r.(bh := s.bh))
    && r.bh == s.bh[p := s.bh[p] - 1][w := s.bh[p]]
  }

  /** The rotation of the far case followed by the new black heights is the far step. */
  lemma FarStepOf(s: State, p: Handle, d: Side, r: State, r2: State)
    requires Sized(s) && p < |s.nodes| && Child(s.nodes[p], Flip(d)) < |s.nodes|
    requires Child(s.nodes[Child(s.nodes[p], Flip(d))], Flip(d)) < |s.nodes|
    requires var w := Child(s.nodes[p], Flip(d));
      var s1 := Paint(Paint(Paint(s, w, s.nodes[p].color), p, BlackByte), Child(s.nodes[w], Flip(d)), BlackByte);
      Rotatable(s1, d, p) && RotationOf(s1, d, p, r)
      && r2 == r.(bh := s.bh[p := s.bh[p] - 1][w := s.bh[p]])
    ensures FarStep(s, p, d, r2)
  {
    assert r2.(bh := s.bh) == r;
  }
}
