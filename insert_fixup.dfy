/**
 * The rebalancing loop that ends `ngx_rbtree_insert`: the invariant it keeps
 * and one lemma per case of its body, each written once for both mirror
 * images (`d` is the side of the grandparent on which the parent hangs).
 */
module InsertFixup {
  import opened Keys
  import opened Layout
  import opened Rotation
  import opened Colours

  /**
   * The loop invariant: the tree is a red-black tree except that the red
   * node `x` may have a red parent, or may be a red root.
   */
  ghost predicate InsFix(s: State, x: Handle)
  {
    Shape(s) && Linked(s, x) && Red(s.nodes[x]) && !Red(s.nodes[s.sentinel])
    && (x != s.root ==> !Red(s.nodes[s.root]))
    && (forall n {:trigger Balanced(s, n)} {:trigger RedOkBut(s, n, x)} ::
          Linked(s, n) ==> Balanced(s, n) && RedOkBut(s, n, x))
  }

  /** While the loop runs, `x` has a parent and a black grandparent. */
  lemma InsParents(s: State, x: Handle)
    requires InsFix(s, x) && x != s.root && s.nodes[x].parent < |s.nodes| && Red(s.nodes[s.nodes[x].parent])
    ensures var p := s.nodes[x].parent;
      Linked(s, p) && p != s.root && p != x && (s.nodes[p].left == x || s.nodes[p].right == x)
      && var g := s.nodes[p].parent;
      Linked(s, g) && g != p && g != x && !Red(s.nodes[g]) && (s.nodes[g].left == p || s.nodes[g].right == p)
  {
    assert NodeOk(s, x) && UpOk(s, x);
    var p := s.nodes[x].parent;
    assert NodeOk(s, p) && UpOk(s, p);
    var g := s.nodes[p].parent;
    assert RedOkBut(s, g, x);
  }

  /**
   * `r` is `s` after the recolouring of `InsUncleRed`: `p` and the uncle `u`
   * black, `g` red and one black level higher, nothing else changed.
   */
  ghost predicate UncleRedStep(s: State, r: State, x: Handle, p: Handle, u: Handle, g: Handle, d: Side)
  {
    InsFix(s, x) && Sized(r) && SameLinks(s, r)
    && Linked(s, p) && s.nodes[x].parent == p && Red(s.nodes[p])
    && Linked(s, g) && s.nodes[p].parent == g && Child(s.nodes[g], d) == p
    && Linked(s, u) && s.nodes[u].parent == g && Child(s.nodes[g], Flip(d)) == u
    && u != p && Red(s.nodes[u]) && !Red(s.nodes[g]) && Balanced(s, p) && Balanced(s, u)
    && (forall m :: 0 <= m < |s.nodes| ==>
          (Red(r.nodes[m]) <==> if m == g then true else if m == p || m == u then false else Red(s.nodes[m])))
    && r.bh == s.bh[g := s.bh[g] + 1]
  }

  /** The recolouring adds one black level at `p` and at `u` and keeps every other slot's height. */
  lemma UncleRedBH(s: State, r: State, x: Handle, p: Handle, u: Handle, g: Handle, d: Side, c: Handle)
    requires UncleRedStep(s, r, x, p, u, g, d) && c < |s.nodes|
    ensures BH(r, c) == BH(s, c) + (if c == p || c == u then 1 else 0)
    ensures Red(r.nodes[c]) <==> if c == g then true else if c == p || c == u then false else Red(s.nodes[c])
  {
    assert !Linked(s, s.sentinel);
  }

  /** One node of the tree after the recolouring of `InsUncleRed`. */
  lemma UncleRedNode(s: State, r: State, x: Handle, p: Handle, u: Handle, g: Handle, d: Side, n: Handle)
    requires UncleRedStep(s, r, x, p, u, g, d) && Linked(r, n)
    ensures Balanced(r, n) && RedOkBut(r, n, g)
  {
    assert Linked(s, n);
    assert Balanced(s, n) && RedOkBut(s, n, x);
    assert NodeOk(s, n);
    var nd := s.nodes[n];
    assert r.nodes[n].left == nd.left && r.nodes[n].right == nd.right;
    // a child's parent link names its parent, so only g has p or u as a child
    // and only p has x as a child
    assert nd.left == p || nd.left == u || nd.right == p || nd.right == u ==> n == g;
    assert nd.left == x || nd.right == x ==> n == p;
    UncleRedBH(s, r, x, p, u, g, d, n);
    UncleRedBH(s, r, x, p, u, g, d, nd.left);
    UncleRedBH(s, r, x, p, u, g, d, nd.right);
  }

  /** What the recolouring of `InsUncleRed` changes: three colour bytes. */
  lemma UncleRedPaint(s: State, p: Handle, u: Handle, g: Handle)
    requires p < |s.nodes| && u < |s.nodes| && g < |s.nodes| && g != p && g != u
    ensures var r := Paint(Paint(Paint(s, p, BlackByte), u, BlackByte), g, RedByte);
      SameLinks(s, r) && r.bh == s.bh
      && forall m :: 0 <= m < |s.nodes| ==>
           (Red(r.nodes[m]) <==> if m == g then true else if m == p || m == u then false else Red(s.nodes[m]))
  {
    var s1 := Paint(s, p, BlackByte);
    var s2 := Paint(s1, u, BlackByte);
    PaintSameLinks(s, p, BlackByte);
    PaintSameLinks(s1, u, BlackByte);
    PaintSameLinks(s2, g, RedByte);
  }

  /** The recolouring of `InsUncleRed` is an `UncleRedStep`. */
  lemma UncleRedSetup(s: State, x: Handle, p: Handle, g: Handle, d: Side)
    requires InsFix(s, x) && x != s.root
    requires Linked(s, p) && s.nodes[x].parent == p && Red(s.nodes[p])
    requires Linked(s, g) && s.nodes[p].parent == g && Child(s.nodes[g], d) == p
    requires Child(s.nodes[g], Flip(d)) < |s.nodes| && Red(s.nodes[Child(s.nodes[g], Flip(d))])
    ensures var u := Child(s.nodes[g], Flip(d));
      var r := Paint(Paint(Paint(s, p, BlackByte), u, BlackByte), g, RedByte).(bh := s.bh[g := s.bh[g] + 1]);
      UncleRedStep(s, r, x, p, u, g, d)
  {
    InsParents(s, x);
    var u := Child(s.nodes[g], Flip(d));
    assert NodeOk(s, g);
    ChildOf(s, g, Flip(d));
    ChildOf(s, g, d);
    UncleRedPaint(s, p, u, g);
    assert Balanced(s, p) && Balanced(s, u);
  }

  /** After the recolouring of `InsUncleRed`, every node keeps the colour rules, `g` excepted. */
  lemma UncleRedAll(s: State, r: State, x: Handle, p: Handle, u: Handle, g: Handle, d: Side)
    requires UncleRedStep(s, r, x, p, u, g, d)
    ensures forall n {:trigger Balanced(r, n)} {:trigger RedOkBut(r, n, g)} ::
      Linked(r, n) ==> Balanced(r, n) && RedOkBut(r, n, g)
  {
    forall n | Linked(r, n) ensures Balanced(r, n) && RedOkBut(r, n, g) {
      UncleRedNode(s, r, x, p, u, g, d, n);
    }
  }

  /** The three nodes the red-uncle case repaints are nodes of the tree. */
  lemma InsUncleIn(s: State, x: Handle, p: Handle, g: Handle, d: Side)
    requires InsFix(s, x) && x != s.root
    requires Linked(s, p) && s.nodes[x].parent == p && Red(s.nodes[p])
    requires Linked(s, g) && s.nodes[p].parent == g && Child(s.nodes[g], d) == p
    requires Child(s.nodes[g], Flip(d)) < |s.nodes| && Red(s.nodes[Child(s.nodes[g], Flip(d))])
    ensures p in s.order && g in s.order && Child(s.nodes[g], Flip(d)) in s.order
  {
    LinkedIsIn(s, p);
    LinkedIsIn(s, g);
    ChildOf(s, g, Flip(d));
    LinkedIsIn(s, Child(s.nodes[g], Flip(d)));
  }

  /**
   * Parent and uncle both red: they turn black, the grandparent red, and
   * the grandparent becomes the new `x`, whose subtree is larger.
   */
  lemma InsUncleRed(s: State, x: Handle, p: Handle, g: Handle, d: Side)
    requires InsFix(s, x) && x != s.root
    requires Linked(s, p) && s.nodes[x].parent == p && Red(s.nodes[p])
    requires Linked(s, g) && s.nodes[p].parent == g && Child(s.nodes[g], d) == p
    requires Child(s.nodes[g], Flip(d)) < |s.nodes| && Red(s.nodes[Child(s.nodes[g], Flip(d))])
    ensures var u := Child(s.nodes[g], Flip(d));
      var r := Paint(Paint(Paint(s, p, BlackByte), u, BlackByte), g, RedByte).(bh := s.bh[g := s.bh[g] + 1]);
      InsFix(r, g) && s.hi[g] - s.lo[g] > s.hi[x] - s.lo[x] && KeysKept(s, r)
  {
    var u := Child(s.nodes[g], Flip(d));
    var r := Paint(Paint(Paint(s, p, BlackByte), u, BlackByte), g, RedByte).(bh := s.bh[g := s.bh[g] + 1]);
    UncleRedSetup(s, x, p, g, d);
    SameLinksShape(s, r);
    UncleRedAll(s, r, x, p, u, g, d);
    ParentWider(s, x);
    ParentWider(s, p);
    assert !Linked(s, s.sentinel);
  }

  /** The situation `InsInner` handles: `x` is the inner grandchild of a black `g`. */
  ghost predicate InnerCase(s: State, x: Handle, p: Handle, g: Handle, d: Side)
  {
    InsFix(s, x) && x != s.root
    && Linked(s, p) && s.nodes[x].parent == p && Red(s.nodes[p]) && Child(s.nodes[p], Flip(d)) == x
    && Linked(s, g) && s.nodes[p].parent == g && Child(s.nodes[g], d) == p && !Red(s.nodes[g])
  }

  /** `r` is `s` rotated at `p` towards `d`, with the same colours. */
  ghost predicate InnerRotated(s: State, x: Handle, p: Handle, g: Handle, d: Side, r: State)
  {
    InnerCase(s, x, p, g, d) && Rotatable(s, d, p) && RotationOf(s, d, p, r) && Shape(r)
    && forall m :: 0 <= m < |s.nodes| ==> r.nodes[m].color == s.nodes[m].color
  }

  /** The inner case before the rotation, at the nodes it touches. */
  ghost predicate InnerBefore(s: State, x: Handle, p: Handle, g: Handle, d: Side)
  {
    Sized(s) && x < |s.nodes| && p < |s.nodes| && g < |s.nodes| && x != s.sentinel && p != s.sentinel
    && Balanced(s, p) && Balanced(s, x) && Balanced(s, g)
    && RedOkBut(s, p, x) && RedOkBut(s, x, x)
    && Red(s.nodes[p]) && Red(s.nodes[x]) && !Red(s.nodes[g])
    && Child(s.nodes[g], d) == p && Child(s.nodes[p], Flip(d)) == x
    && Child(s.nodes[p], d) != x && Child(s.nodes[x], d) != x && Child(s.nodes[x], Flip(d)) != x
  }

  /**
   * The inner rotation seen from the nodes it touches: `p` keeps its outer
   * child `a` and takes `x`'s inner child `b`, `x` takes `p`, and `g` takes `x`;
   * no colour or black height changes.
   */
  ghost predicate InnerAfter(s: State, r: State, x: Handle, p: Handle, g: Handle, d: Side)
    requires Sized(s) && x < |s.nodes| && p < |s.nodes| && g < |s.nodes|
  {
    var a := Child(s.nodes[p], d);
    var b := Child(s.nodes[x], d);
    var c := Child(s.nodes[x], Flip(d));
    var u := Child(s.nodes[g], Flip(d));
    Sized(r) && |r.nodes| == |s.nodes| && r.sentinel == s.sentinel && r.bh == s.bh
    && Child(r.nodes[p], d) == a && Child(r.nodes[p], Flip(d)) == b
    && Child(r.nodes[x], d) == p && Child(r.nodes[x], Flip(d)) == c
    && Child(r.nodes[g], d) == x && Child(r.nodes[g], Flip(d)) == u
    && SameColour(s, r, p) && SameColour(s, r, x) && SameColour(s, r, g)
    && SameColour(s, r, a) && SameColour(s, r, b) && SameColour(s, r, c) && SameColour(s, r, u)
  }

  ghost predicate InnerLocal(s: State, r: State, x: Handle, p: Handle, g: Handle, d: Side)
  {
    InnerBefore(s, x, p, g, d) && InnerAfter(s, r, x, p, g, d)
  }

  lemma InnerBeforeHolds(s: State, x: Handle, p: Handle, g: Handle, d: Side)
    requires InnerCase(s, x, p, g, d)
    ensures InnerBefore(s, x, p, g, d)
  {
    assert Balanced(s, p) && RedOkBut(s, p, x);
    assert Balanced(s, x) && RedOkBut(s, x, x);
    assert Balanced(s, g);
    assert NodeOk(s, p) && NodeOk(s, x);
  }

  lemma InnerAfterHolds(s: State, r: State, x: Handle, p: Handle, g: Handle, d: Side)
    requires Rotatable(s, d, p) && RotationOf(s, d, p, r) && p != s.root
    requires Child(s.nodes[p], Flip(d)) == x && s.nodes[p].parent == g && Child(s.nodes[g], d) == p
    requires Balanced(s, g) && Balanced(s, x) && Balanced(s, p)
    requires forall m :: 0 <= m < |s.nodes| ==> r.nodes[m].color == s.nodes[m].color
    ensures InnerAfter(s, r, x, p, g, d)
  {
  }

  lemma InnerAtP(s: State, r: State, x: Handle, p: Handle, g: Handle, d: Side)
    requires InnerLocal(s, r, x, p, g, d)
    ensures Balanced(r, p) && RedOkBut(r, p, p)
  {
  }

  lemma InnerAtX(s: State, r: State, x: Handle, p: Handle, g: Handle, d: Side)
    requires InnerLocal(s, r, x, p, g, d)
    ensures Balanced(r, x) && RedOkBut(r, x, p)
  {
  }

  lemma InnerAtG(s: State, r: State, x: Handle, p: Handle, g: Handle, d: Side)
    requires InnerLocal(s, r, x, p, g, d)
    ensures Balanced(r, g) && RedOkBut(r, g, p)
  {
  }

  lemma InnerAtB(s: State, r: State, x: Handle, p: Handle, g: Handle, d: Side)
    requires InnerRotated(s, x, p, g, d, r) && Child(s.nodes[x], d) != s.sentinel
    ensures Balanced(r, Child(s.nodes[x], d)) && RedOkBut(r, Child(s.nodes[x], d), p)
  {
    var b := Child(s.nodes[x], d);
    ChildOf(s, x, d);
    assert Balanced(s, b) && RedOkBut(s, b, x);
    assert NodeOk(s, b);
  }

  lemma InnerElsewhere(s: State, r: State, x: Handle, p: Handle, g: Handle, d: Side, n: Handle)
    requires InnerRotated(s, x, p, g, d, r)
    requires Linked(s, n) && n != p && n != x && n != g && n != Child(s.nodes[x], d)
    ensures Balanced(r, n) && RedOkBut(r, n, p)
  {
    assert Balanced(s, n) && RedOkBut(s, n, x);
    assert NodeOk(s, n);
    var nd := s.nodes[n];
    assert nd.left != x && nd.right != x && nd.left != p && nd.right != p;
    assert SameNode(s, r, n);
    Untouched(s, r, n, x, p);
  }

  /** The rotation of `InsInner` keeps the loop invariant, with `p` as the new `x`. */
  /** After the rotation of `InsInner`, every node keeps the colour rules, with `p` as the exception. */
  lemma InnerEveryNode(s: State, x: Handle, p: Handle, g: Handle, d: Side, r: State)
    requires InnerRotated(s, x, p, g, d, r)
    ensures forall n {:trigger Balanced(r, n)} {:trigger RedOkBut(r, n, p)} ::
      Linked(r, n) ==> Balanced(r, n) && RedOkBut(r, n, p)
  {
    InnerBeforeHolds(s, x, p, g, d);
    InnerAfterHolds(s, r, x, p, g, d);
    InnerAtP(s, r, x, p, g, d);
    InnerAtX(s, r, x, p, g, d);
    InnerAtG(s, r, x, p, g, d);
    if Child(s.nodes[x], d) != s.sentinel {
      InnerAtB(s, r, x, p, g, d);
    }
    forall n | Linked(r, n) && n != p && n != x && n != g && n != Child(s.nodes[x], d)
      ensures Balanced(r, n) && RedOkBut(r, n, p)
    {
      InnerElsewhere(s, r, x, p, g, d, n);
    }
  }

  /** The rotation of `InsInner` keeps the loop invariant, with `p` as the new `x`. */
  lemma InnerFix(s: State, x: Handle, p: Handle, g: Handle, d: Side, r: State)
    requires InnerCase(s, x, p, g, d) && Rotatable(s, d, p) && RotationOf(s, d, p, r)
    ensures InsFix(r, p)
  {
    RotatedShape(s, d, p, r);
    RotatedKeysColours(s, d, p, r);
    assert InnerRotated(s, x, p, g, d, r);
    InnerEveryNode(s, x, p, g, d, r);
  }

  /** After the rotation of `InsInner`, `x` sits where `p` was and `p` below it. */
  lemma InnerLinks(s: State, x: Handle, p: Handle, g: Handle, d: Side, r: State)
    requires InnerCase(s, x, p, g, d) && Rotatable(s, d, p) && RotationOf(s, d, p, r)
    ensures p != r.root && r.nodes[p].parent == x && Child(r.nodes[x], d) == p
    ensures r.nodes[x].parent == g && Child(r.nodes[g], d) == x && Red(r.nodes[x])
    ensures Child(r.nodes[g], Flip(d)) == Child(s.nodes[g], Flip(d))
    ensures r.order == s.order && |r.nodes| == |s.nodes|
    ensures forall m :: 0 <= m < |s.nodes| ==> r.nodes[m].key == s.nodes[m].key && r.nodes[m].color == s.nodes[m].color
  {
    RotationParts(s, d, p);
    RotatedShape(s, d, p, r);
    RotatedKeysColours(s, d, p, r);
    assert NodeOk(s, g);
  }

  /**
   * Uncle black and `x` the inner grandchild: rotating at the parent turns
   * it into the outer case, with the old parent as the new `x`.
   */
  lemma InsInner(s: State, x: Handle, p: Handle, g: Handle, d: Side, r: State)
    requires InsFix(s, x) && x != s.root
    requires Linked(s, p) && s.nodes[x].parent == p && Red(s.nodes[p]) && Child(s.nodes[p], Flip(d)) == x
    requires Linked(s, g) && s.nodes[p].parent == g && Child(s.nodes[g], d) == p
    requires Rotatable(s, d, p) && RotationOf(s, d, p, r)
    ensures InsFix(r, p) && p != r.root && r.nodes[p].parent == x && Child(r.nodes[x], d) == p
    ensures r.nodes[x].parent == g && Child(r.nodes[g], d) == x && Red(r.nodes[x])
    ensures Child(r.nodes[g], Flip(d)) == Child(s.nodes[g], Flip(d))
    ensures r.order == s.order && |r.nodes| == |s.nodes|
    ensures forall m :: 0 <= m < |s.nodes| ==> r.nodes[m].key == s.nodes[m].key && r.nodes[m].color == s.nodes[m].color
  {
    InsParents(s, x);
    assert InnerCase(s, x, p, g, d);
    InnerFix(s, x, p, g, d, r);
    InnerLinks(s, x, p, g, d, r);
  }

  /** The situation `InsOuter` handles: `x` is the outer grandchild and the uncle is black. */
  ghost predicate OuterCase(s: State, x: Handle, p: Handle, g: Handle, d: Side)
  {
    InsFix(s, x) && x != s.root && OuterShape(s, x, p, g, d)
    && Red(s.nodes[p]) && !Red(s.nodes[g]) && !Red(s.nodes[Child(s.nodes[g], Flip(d))])
  }

  /** The links of the outer case: `x` is the `d`-child of `p`, which is the `d`-child of `g`. */
  ghost predicate OuterShape(s: State, x: Handle, p: Handle, g: Handle, d: Side)
  {
    Shape(s) && Linked(s, x) && x != s.root
    && Linked(s, p) && s.nodes[x].parent == p && Child(s.nodes[p], d) == x
    && Linked(s, g) && s.nodes[p].parent == g && Child(s.nodes[g], d) == p
    && Child(s.nodes[g], Flip(d)) < |s.nodes| && Child(s.nodes[p], Flip(d)) < |s.nodes|
    && (g != s.root ==> Linked(s, s.nodes[g].parent))
  }

  /**
   * `r` is `s` with `p` painted black and `g` red (giving `s1`), then
   * rotated at `g` away from `d`.
   */
  ghost predicate OuterRotated(s: State, x: Handle, p: Handle, g: Handle, d: Side, s1: State, r: State)
  {
    OuterShape(s, x, p, g, d) && SameLinks(s, s1) && s1.bh == s.bh && Shape(s1)
    && !Red(s1.nodes[p]) && Red(s1.nodes[g])
    && (forall m :: 0 <= m < |s.nodes| && m != p && m != g ==> s1.nodes[m] == s.nodes[m])
    && Rotatable(s1, Flip(d), g) && RotationOf(s1, Flip(d), g, r) && Shape(r)
    && forall m :: 0 <= m < |s.nodes| ==> r.nodes[m].color == s1.nodes[m].color
  }

  /** What `OuterRotated` amounts to, node by node, without the rotation's definition. */
  ghost predicate OuterFacts(s: State, x: Handle, p: Handle, g: Handle, d: Side, r: State)
    requires OuterShape(s, x, p, g, d)
  {
    var b := Child(s.nodes[p], Flip(d));
    var u := Child(s.nodes[g], Flip(d));
    var q := s.nodes[g].parent;
    Sized(r) && |r.nodes| == |s.nodes| && r.sentinel == s.sentinel && r.bh == s.bh
    && r.order == s.order && r.pos == s.pos
    && r.root == (if g == s.root then p else s.root)
    && !Red(r.nodes[p]) && Red(r.nodes[g])
    && (forall m :: 0 <= m < |s.nodes| && m != p && m != g ==> r.nodes[m].color == s.nodes[m].color)
    && (forall m :: 0 <= m < |s.nodes| && m != p && m != g && (g == s.root || m != q) ==>
          r.nodes[m].left == s.nodes[m].left && r.nodes[m].right == s.nodes[m].right)
    && Child(r.nodes[g], d) == b && Child(r.nodes[g], Flip(d)) == u
    && Child(r.nodes[p], d) == x && Child(r.nodes[p], Flip(d)) == g && r.nodes[x].parent == p
    && (g != s.root ==> r.nodes[q] == WithChild(s.nodes[q], if s.nodes[q].left == g then Left else Right, p))
  }

  lemma OuterSummaryColours(s: State, x: Handle, p: Handle, g: Handle, d: Side, s1: State, r: State)
    requires OuterRotated(s, x, p, g, d, s1, r)
    ensures Sized(r) && |r.nodes| == |s.nodes| && r.sentinel == s.sentinel && r.bh == s.bh
    ensures r.order == s.order && r.pos == s.pos
    ensures !Red(r.nodes[p]) && Red(r.nodes[g])
    ensures forall m :: 0 <= m < |s.nodes| && m != p && m != g ==> r.nodes[m].color == s.nodes[m].color
  {
  }

  lemma OuterSummaryLinks(s: State, x: Handle, p: Handle, g: Handle, d: Side, s1: State, r: State)
    requires OuterRotated(s, x, p, g, d, s1, r)
    ensures |r.nodes| == |s.nodes|
    ensures var q := s.nodes[g].parent;
      forall m :: 0 <= m < |s.nodes| && m != p && m != g && (g == s.root || m != q) ==>
        r.nodes[m].left == s.nodes[m].left && r.nodes[m].right == s.nodes[m].right
  {
    RotationParts(s1, Flip(d), g);
    assert Flip(Flip(d)) == d;
    var b := Child(s.nodes[p], Flip(d));
    var q := s.nodes[g].parent;
    forall m | 0 <= m < |s.nodes| && m != p && m != g && (g == s.root || m != q)
      ensures r.nodes[m].left == s.nodes[m].left && r.nodes[m].right == s.nodes[m].right
    {
      if m != b || b == s.sentinel {
        assert SameNode(s1, r, m);
      }
    }
  }

  lemma OuterSummaryTouched(s: State, x: Handle, p: Handle, g: Handle, d: Side, s1: State, r: State)
    requires OuterRotated(s, x, p, g, d, s1, r)
    ensures |r.nodes| == |s.nodes| && r.root == (if g == s.root then p else s.root)
    ensures var b := Child(s.nodes[p], Flip(d));
      var u := Child(s.nodes[g], Flip(d));
      var q := s.nodes[g].parent;
      Child(r.nodes[g], d) == b && Child(r.nodes[g], Flip(d)) == u
      && Child(r.nodes[p], d) == x && Child(r.nodes[p], Flip(d)) == g && r.nodes[x].parent == p
      && (g != s.root ==> r.nodes[q] == WithChild(s.nodes[q], if s.nodes[q].left == g then Left else Right, p))
  {
    RotationParts(s1, Flip(d), g);
    assert Flip(Flip(d)) == d;
    assert NodeOk(s, p);
    assert SameNode(s1, r, x);
  }

  lemma OuterSummary(s: State, x: Handle, p: Handle, g: Handle, d: Side, s1: State, r: State)
    requires OuterRotated(s, x, p, g, d, s1, r)
    ensures OuterFacts(s, x, p, g, d, r)
  {
    OuterSummaryColours(s, x, p, g, d, s1, r);
    OuterSummaryLinks(s, x, p, g, d, s1, r);
    OuterSummaryTouched(s, x, p, g, d, s1, r);
  }

  /** The outer case before the recolouring and rotation, at the nodes they touch. */
  ghost predicate OuterBefore(s: State, x: Handle, p: Handle, g: Handle, d: Side)
  {
    Sized(s) && x < |s.nodes| && p < |s.nodes| && g < |s.nodes| && p != s.sentinel && g != s.sentinel
    && Balanced(s, p) && Balanced(s, g) && RedOkBut(s, p, x)
    && Red(s.nodes[p]) && !Red(s.nodes[g]) && !Red(s.nodes[Child(s.nodes[g], Flip(d))])
    && Child(s.nodes[g], d) == p && Child(s.nodes[p], d) == x && Child(s.nodes[p], Flip(d)) != x
    && (g != s.root ==>
          var q := s.nodes[g].parent;
          q < |s.nodes| && Balanced(s, q) && RedOkBut(s, q, x) && (s.nodes[q].left == g || s.nodes[q].right == g))
  }

  /**
   * The outer case after it, at the same nodes: `p` holds `x` and `g`, `g`
   * holds `b` and the uncle `u`, `g`'s old parent holds `p`; `p` is black,
   * `g` red, no other colour and no black height changes.
   */
  ghost predicate OuterAfter(s: State, x: Handle, p: Handle, g: Handle, d: Side, r: State)
    requires Sized(s) && x < |s.nodes| && p < |s.nodes| && g < |s.nodes|
  {
    var b := Child(s.nodes[p], Flip(d));
    var u := Child(s.nodes[g], Flip(d));
    var q := s.nodes[g].parent;
    Sized(r) && |r.nodes| == |s.nodes| && r.sentinel == s.sentinel && r.bh == s.bh
    && Child(r.nodes[p], d) == x && Child(r.nodes[p], Flip(d)) == g
    && Child(r.nodes[g], d) == b && Child(r.nodes[g], Flip(d)) == u
    && !Red(r.nodes[p]) && Red(r.nodes[g])
    && SameColour(s, r, x) && SameColour(s, r, b) && SameColour(s, r, u)
    && (g != s.root ==>
          q < |s.nodes|
          && var e := if s.nodes[q].left == g then Left else Right;
          Child(r.nodes[q], e) == p && Child(r.nodes[q], Flip(e)) == Child(s.nodes[q], Flip(e))
          && SameColour(s, r, q) && SameColour(s, r, Child(s.nodes[q], Flip(e))))
  }

  lemma OuterBeforeHolds(s: State, x: Handle, p: Handle, g: Handle, d: Side)
    requires OuterCase(s, x, p, g, d)
    ensures OuterBefore(s, x, p, g, d)
  {
    assert Balanced(s, p) && RedOkBut(s, p, x) && Balanced(s, g);
    assert NodeOk(s, p);
    if g != s.root {
      assert NodeOk(s, g) && UpOk(s, g);
      var q := s.nodes[g].parent;
      assert Balanced(s, q) && RedOkBut(s, q, x);
    }
  }

  /** The nodes around the outer case are distinct where they need to be. */
  lemma OuterDistinct(s: State, x: Handle, p: Handle, g: Handle, d: Side)
    requires OuterShape(s, x, p, g, d)
    ensures var b := Child(s.nodes[p], Flip(d));
      var u := Child(s.nodes[g], Flip(d));
      x != p && x != g && b != p && b != g && b != x && u != p && u != g && p != g
    ensures g != s.root ==>
      var q := s.nodes[g].parent;
      var e := if s.nodes[q].left == g then Left else Right;
      q != p && q != g && Child(s.nodes[q], e) == g
      && Child(s.nodes[q], Flip(e)) < |s.nodes|
      && Child(s.nodes[q], Flip(e)) != p && Child(s.nodes[q], Flip(e)) != g
  {
    assert NodeOk(s, p) && NodeOk(s, g);
    if g != s.root {
      assert UpOk(s, g);
      var q := s.nodes[g].parent;
      assert NodeOk(s, q);
    }
  }

  lemma OuterAfterHolds(s: State, x: Handle, p: Handle, g: Handle, d: Side, r: State)
    requires OuterShape(s, x, p, g, d) && OuterFacts(s, x, p, g, d, r)
    ensures OuterAfter(s, x, p, g, d, r)
  {
    assert Flip(Flip(d)) == d;
    OuterDistinct(s, x, p, g, d);
  }

  lemma OuterAtG(s: State, x: Handle, p: Handle, g: Handle, d: Side, r: State)
    requires OuterBefore(s, x, p, g, d) && OuterAfter(s, x, p, g, d, r)
    ensures Balanced(r, g) && RedOkBut(r, g, x)
  {
  }

  lemma OuterAtP(s: State, x: Handle, p: Handle, g: Handle, d: Side, r: State)
    requires OuterBefore(s, x, p, g, d) && OuterAfter(s, x, p, g, d, r)
    ensures Balanced(r, p) && RedOkBut(r, p, x)
  {
  }

  lemma OuterAtQ(s: State, x: Handle, p: Handle, g: Handle, d: Side, r: State)
    requires OuterBefore(s, x, p, g, d) && OuterAfter(s, x, p, g, d, r) && g != s.root
    ensures Balanced(r, s.nodes[g].parent) && RedOkBut(r, s.nodes[g].parent, x)
  {
  }

  /** The moved subtree `b` is not next to `p`, `g`, `x` or `g`'s parent. */
  lemma OuterBApart(s: State, x: Handle, p: Handle, g: Handle, d: Side)
    requires OuterShape(s, x, p, g, d) && Child(s.nodes[p], Flip(d)) != s.sentinel
    ensures var b := Child(s.nodes[p], Flip(d));
      var nb := s.nodes[b];
      Linked(s, b) && nb.left != p && nb.right != p && nb.left != g && nb.right != g
      && nb.left != x && nb.right != x && (g != s.root ==> b != s.nodes[g].parent)
  {
    var b := Child(s.nodes[p], Flip(d));
    ChildOf(s, p, Flip(d));
    assert NodeOk(s, b) && NodeOk(s, p) && NodeOk(s, g);
    if g != s.root {
      ParentWider(s, g);
      ParentWider(s, p);
    }
  }

  lemma OuterAtB(s: State, x: Handle, p: Handle, g: Handle, d: Side, r: State)
    requires OuterCase(s, x, p, g, d) && OuterFacts(s, x, p, g, d, r) && Child(s.nodes[p], Flip(d)) != s.sentinel
    ensures Balanced(r, Child(s.nodes[p], Flip(d))) && RedOkBut(r, Child(s.nodes[p], Flip(d)), x)
  {
    var b := Child(s.nodes[p], Flip(d));
    OuterBApart(s, x, p, g, d);
    OuterDistinct(s, x, p, g, d);
    assert Balanced(s, b) && RedOkBut(s, b, x);
    Untouched(s, r, b, x, x);
  }

  lemma OuterElsewhere(s: State, x: Handle, p: Handle, g: Handle, d: Side, r: State, n: Handle)
    requires OuterCase(s, x, p, g, d) && OuterFacts(s, x, p, g, d, r)
    requires Linked(s, n) && n != p && n != g && n != Child(s.nodes[p], Flip(d))
    requires g == s.root || n != s.nodes[g].parent
    ensures Balanced(r, n) && RedOkBut(r, n, x)
  {
    assert Balanced(s, n) && RedOkBut(s, n, x);
    assert NodeOk(s, n);
    var nd := s.nodes[n];
    assert nd.left != p && nd.right != p && nd.left != x && nd.right != x;
    assert g != s.root ==> nd.left != g && nd.right != g;
    assert g == s.root ==> NodeOk(s, g) && nd.left != g && nd.right != g;
    assert Flip(Flip(d)) == d;
    Untouched(s, r, n, x, x);
  }

  /** After the recolouring of `InsOuter` the grandparent can be rotated. */
  lemma OuterReady(s: State, x: Handle, p: Handle, g: Handle, d: Side)
    requires OuterCase(s, x, p, g, d)
    ensures var s1 := Paint(Paint(s, p, BlackByte), g, RedByte);
      Shape(s1) && SameLinks(s, s1) && Rotatable(s1, Flip(d), g)
  {
    var s0 := Paint(s, p, BlackByte);
    var s1 := Paint(s0, g, RedByte);
    PaintSameLinks(s, p, BlackByte);
    PaintSameLinks(s0, g, RedByte);
    SameLinksShape(s, s1);
    assert Flip(Flip(d)) == d;
    CanRotate(s1, Flip(d), g);
  }

  /** The recolouring and rotation of `InsOuter` restore the invariant at every node. */
  /** After the recolouring and rotation of `InsOuter`, every node keeps the colour rules, `x` excepted. */
  lemma OuterEveryNode(s: State, x: Handle, p: Handle, g: Handle, d: Side, r: State)
    requires OuterCase(s, x, p, g, d) && OuterFacts(s, x, p, g, d, r)
    ensures forall n {:trigger Balanced(r, n)} {:trigger RedOkBut(r, n, x)} ::
      Linked(r, n) ==> Balanced(r, n) && RedOkBut(r, n, x)
  {
    OuterBeforeHolds(s, x, p, g, d);
    OuterAfterHolds(s, x, p, g, d, r);
    OuterAtG(s, x, p, g, d, r);
    OuterAtP(s, x, p, g, d, r);
    var b := Child(s.nodes[p], Flip(d));
    if b != s.sentinel {
      OuterAtB(s, x, p, g, d, r);
    }
    if g != s.root {
      OuterAtQ(s, x, p, g, d, r);
    }
    forall n | Linked(r, n) && n != p && n != g && n != b && (g == s.root || n != s.nodes[g].parent)
      ensures Balanced(r, n) && RedOkBut(r, n, x)
    {
      OuterElsewhere(s, x, p, g, d, r, n);
    }
  }

  /** The recolouring and rotation of `InsOuter` restore the invariant at every node. */
  lemma OuterFix(s: State, x: Handle, p: Handle, g: Handle, d: Side, r: State)
    requires OuterCase(s, x, p, g, d) && OuterFacts(s, x, p, g, d, r) && Shape(r)
    ensures InsFix(r, x) && x != r.root && r.nodes[x].parent == p && !Red(r.nodes[p])
  {
    OuterEveryNode(s, x, p, g, d, r);
    assert NodeOk(s, x) && NodeOk(s, p);
  }

  /**
   * Uncle black and `x` the outer grandchild: the parent turns black, the
   * grandparent red, and a rotation at the grandparent lifts the parent
   * into its place. The loop then stops, as `x`'s parent is black.
   */
  lemma InsOuter(s: State, x: Handle, p: Handle, g: Handle, d: Side, r: State)
    requires OuterCase(s, x, p, g, d)
    requires Rotatable(Paint(Paint(s, p, BlackByte), g, RedByte), Flip(d), g)
    requires RotationOf(Paint(Paint(s, p, BlackByte), g, RedByte), Flip(d), g, r)
    ensures InsFix(r, x) && x != r.root && r.nodes[x].parent == p && !Red(r.nodes[p])
    ensures r.order == s.order && |r.nodes| == |s.nodes|
    ensures forall m :: 0 <= m < |s.nodes| ==> r.nodes[m].key == s.nodes[m].key
  {
    var s0 := Paint(s, p, BlackByte);
    var s1 := Paint(s0, g, RedByte);
    OuterReady(s, x, p, g, d);
    PaintSameLinks(s, p, BlackByte);
    PaintSameLinks(s0, g, RedByte);
    RotatedShape(s1, Flip(d), g, r);
    RotatedKeysColours(s1, Flip(d), g, r);
    assert OuterRotated(s, x, p, g, d, s1, r);
    OuterSummary(s, x, p, g, d, s1, r);
    OuterFix(s, x, p, g, d, r);
  }

  /**
   * The uncle is black and `x` is the outer grandchild: the outer case
   * applies, and after the recolouring the grandparent can be rotated.
   */
  lemma OuterEntry(s: State, x: Handle, p: Handle, g: Handle, d: Side)
    requires InsFix(s, x) && x != s.root && s.nodes[x].parent == p && p < |s.nodes| && Red(s.nodes[p])
    requires Linked(s, p) && s.nodes[p].parent == g && Child(s.nodes[p], d) == x
    requires Linked(s, g) && Child(s.nodes[g], d) == p
    requires Child(s.nodes[g], Flip(d)) < |s.nodes| && !Red(s.nodes[Child(s.nodes[g], Flip(d))])
    ensures OuterCase(s, x, p, g, d)
    ensures Rotatable(Paint(Paint(s, p, BlackByte), g, RedByte), Flip(d), g)
  {
    InsParents(s, x);
    assert NodeOk(s, g) && NodeOk(s, p);
    if g != s.root {
      assert UpOk(s, g);
    }
    assert OuterCase(s, x, p, g, d);
    var s1 := Paint(Paint(s, p, BlackByte), g, RedByte);
    PaintSameLinks(s, p, BlackByte);
    PaintSameLinks(Paint(s, p, BlackByte), g, RedByte);
    SameLinksShape(s, s1);
    CanRotate(s1, Flip(d), g);
  }

  /** Whether the loop goes on: `x` has a red parent. */
  ghost function Pending(s: State, x: Handle): (r: int)
    ensures r == 0 || r == 1
  {
    if x != s.root && x < |s.nodes| && s.nodes[x].parent < |s.nodes| && Red(s.nodes[s.nodes[x].parent]) then 1 else 0
  }

  /** Under the loop invariant a non-root `x` has a parent and a subtree no larger than the tree. */
  lemma FixBounds(s: State, x: Handle)
    requires InsFix(s, x)
    ensures x != s.root ==> s.nodes[x].parent < |s.nodes|
    ensures 0 <= s.hi[x] - s.lo[x] <= |s.order|
  {
    assert NodeOk(s, x);
    if x != s.root {
      assert UpOk(s, x);
    }
  }

  /**
   * When the loop stops, `x` is the root or has a black parent; painting
   * the root black then leaves a red-black tree.
   */
  lemma InsFinish(s: State, x: Handle)
    requires InsFix(s, x)
    requires x == s.root || (s.nodes[x].parent < |s.nodes| && !Red(s.nodes[s.nodes[x].parent]))
    ensures RedBlack(Paint(s, s.root, BlackByte))
  {
    var r := Paint(s, s.root, BlackByte);
    PaintSameLinks(s, s.root, BlackByte);
    SameLinksShape(s, r);
    forall n | Linked(r, n) ensures Balanced(r, n) && RedOk(r, n) {
      assert Balanced(s, n) && RedOkBut(s, n, x);
      assert NodeOk(s, n);
      RootNotChild(s, n);
    }
  }

  /**
   * The end of `ngx_rbtree_insert`: once the loop stops, painting the root
   * black leaves a sorted red-black tree with the keys and in-order
   * sequence the placement left.
   */
  lemma InsDone(s1: State, s2: State, x: Handle, p: Policy, base: Key)
    requires Shape(s1) && Sorted(s1, p) && AllInWindow(s1, p, base)
    requires InsFix(s2, x) && Pending(s2, x) == 0 && KeysKept(s1, s2)
    ensures RbInvariant(Paint(s2, s2.root, BlackByte), p) && AllInWindow(Paint(s2, s2.root, BlackByte), p, base)
    ensures KeysKept(s1, Paint(s2, s2.root, BlackByte))
  {
    FixBounds(s2, x);
    InsFinish(s2, x);
    var r := Paint(s2, s2.root, BlackByte);
    PaintSameLinks(s2, s2.root, BlackByte);
    SameKeys(s1, r, p, base);
  }
}
