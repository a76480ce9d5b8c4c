/**
 * Colour changes (`ngx_rbt_red`, `ngx_rbt_black`, `ngx_rbt_copy_color`)
 * seen as steps between states: they touch one colour byte and nothing else.
 */
module Colours {
  import opened Keys
  import opened Layout

  /** The byte `ngx_rbt_red` writes. */
  const RedByte: Byte := 1
  /** The byte `ngx_rbt_black` writes. */
  const BlackByte: Byte := 0

  /** `s` with the colour byte of node `n` set to `c`. */
  ghost function Paint(s: State, n: Handle, c: Byte): (r: State)
    requires n < |s.nodes|
    ensures |r.nodes| == |s.nodes| && r.nodes[n].color == c
    ensures Red(r.nodes[n]) <==> c != 0
  {
    s.(nodes := s.nodes[n := s.nodes[n].(color := c)])
  }

  /**
   * `r` has the links, keys and bookkeeping of `s` except perhaps the black
   * heights; colours may differ.
   */
  ghost predicate SameLinks(s: State, r: State)
  {
    |r.nodes| == |s.nodes| && r.root == s.root && r.sentinel == s.sentinel
    && r.order == s.order && r.pos == s.pos && r.lo == s.lo && r.hi == s.hi && |r.bh| == |s.bh|
    && forall m :: 0 <= m < |s.nodes| ==>
         r.nodes[m].left == s.nodes[m].left && r.nodes[m].right == s.nodes[m].right
         && r.nodes[m].parent == s.nodes[m].parent && r.nodes[m].key == s.nodes[m].key
  }

  /** Painting changes no link. */
  lemma PaintSameLinks(s: State, n: Handle, c: Byte)
    requires n < |s.nodes|
    ensures SameLinks(s, Paint(s, n, c))
    ensures forall m :: 0 <= m < |s.nodes| && m != n ==> Paint(s, n, c).nodes[m] == s.nodes[m]
  {
  }

  /** Painting the sentinel or a node of the tree changes no data byte and no record outside the tree. */
  lemma PaintFramed(s: State, n: Handle, c: Byte)
    requires n < |s.nodes| && (n == s.sentinel || n in s.order)
    ensures Framed(s, Paint(s, n, c))
  {
  }

  /** Two colour writes to nodes of the tree change no data byte and no record outside the tree. */
  lemma PaintTwiceFramed(s: State, a: Handle, ca: Byte, b: Handle, cb: Byte)
    requires a in s.order && b in s.order && a < |s.nodes| && b < |s.nodes|
    ensures Framed(s, Paint(Paint(s, a, ca), b, cb))
  {
  }

  /**
   * Colour writes to nodes of the tree, followed by new black heights,
   * change no data byte and no record outside the tree.
   */
  lemma RepaintFramed(s: State, a: Handle, ca: Byte, b: Handle, cb: Byte, c: Handle, cc: Byte, h: seq<int>)
    requires a in s.order && b in s.order && c in s.order
    requires a < |s.nodes| && b < |s.nodes| && c < |s.nodes|
    ensures Framed(s, Paint(Paint(Paint(s, a, ca), b, cb), c, cc).(bh := h))
  {
  }

  /** Links alone decide the shape and the order of keys. */
  lemma SameLinksShape(s: State, r: State)
    requires Shape(s) && SameLinks(s, r)
    ensures Shape(r)
    ensures forall i :: 0 <= i < |s.order| ==> KeyAt(r, i) == KeyAt(s, i)
  {
    forall m | Linked(r, m) ensures NodeOk(r, m) {
      assert NodeOk(s, m);
      if m != s.root {
        assert UpOk(s, m);
      }
    }
  }

  /** Node `n` has the same colour in `r` as in `s`. */
  ghost predicate SameColour(s: State, r: State, n: Handle)
  {
    n < |s.nodes| && n < |r.nodes| && r.nodes[n].color == s.nodes[n].color
  }

  /** A red node has black children, except that `x` may be a red child. */
  ghost predicate RedOkBut(s: State, n: Handle, x: Handle)
    requires Sized(s) && n < |s.nodes|
  {
    var nd := s.nodes[n];
    nd.left < |s.nodes| && nd.right < |s.nodes|
    && (Red(nd) ==> (nd.left == x || !Red(s.nodes[nd.left])) && (nd.right == x || !Red(s.nodes[nd.right])))
  }

  /**
   * A node whose children, colour, black height and children's colours and heights
   * are unchanged keeps its colour rules, and the exception `x` may move to
   * `x2` when `n` has no child `x`.
   */
  lemma Untouched(s: State, r: State, n: Handle, x: Handle, x2: Handle)
    requires Sized(s) && Sized(r) && |r.nodes| == |s.nodes| && r.sentinel == s.sentinel
    requires n < |s.nodes| && r.bh[n] == s.bh[n]
    requires r.nodes[n].left == s.nodes[n].left && r.nodes[n].right == s.nodes[n].right
    requires r.nodes[n].color == s.nodes[n].color
    requires Balanced(s, n) && RedOkBut(s, n, x)
    requires var nd := s.nodes[n];
      r.nodes[nd.left].color == s.nodes[nd.left].color && r.nodes[nd.right].color == s.nodes[nd.right].color
      && r.bh[nd.left] == s.bh[nd.left] && r.bh[nd.right] == s.bh[nd.right]
      && (Red(nd) ==> nd.left != x && nd.right != x)
    ensures Balanced(r, n) && RedOkBut(r, n, x2)
  {
  }
}
