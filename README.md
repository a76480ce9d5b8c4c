# nginx red-black tree, modelled in Dafny

This project models the intrusive red-black tree of nginx (`ngx_rbtree_t`).
The tree links caller-owned node records through `left`, `right` and
`parent` pointers and a one-byte colour. One shared black sentinel record
stands for every empty child. A placement routine chosen at initialisation
decides where a new node hangs. There are two such routines: plain unsigned
key order, and timer order, which compares wrapped differences read as
signed numbers.

The model is imperative, as the C code is. The class `Rbtree.Tree` holds:

- the node records, as a sequence indexed by handles (a handle stands for a
  pointer);
- the root handle and the sentinel handle;
- the placement policy, which replaces the function pointer.

Its methods update these fields the way the C routines update memory.
Ghost bookkeeping rides along with the links:

- the in-order sequence of linked handles;
- each node's position in it;
- the range of it each subtree covers;
- each node's black height.

This bookkeeping states the invariants node by node:

- the links form one binary tree whose in-order walk is that sequence;
- the sentinel and the root are black;
- no red node has a red child;
- black heights are equal on every path;
- keys never decrease along the in-order sequence under the tree's
  comparison.

Modules:

- `Keys`: 64-bit keys, wrapped subtraction, the signed cast, the two
  comparisons, and the window within which the timer comparison is an order.
- `Layout`: node records, tree states, and the shape, colour and order
  invariants.
- `Colours`: colour writes as steps between states.
- `Rotation`: the left and right rotations, written once for both sides.
- `InsertFixup`: the invariant of the insert rebalancing loop, with one
  lemma per case.
- `Placement`: hanging a new leaf into an empty slot, and the first node of
  an empty tree.
- `DeleteFixup`: the invariant of the delete rebalancing loop, with one
  lemma per sibling case.
- `DeleteSplice`: taking the node out of its slot, or moving its in-order
  successor into that slot.
- `DeleteRoot`: the early return when the node leaving its slot is the
  root.
- `Deletion`: what delete promises, and the two lemmas that establish it.
- `Rbtree`: the tree class and its operations.

Delete follows the nginx implementation. When the node has two children,
its in-order successor is relinked into its place and takes its colour;
the successor's record is not copied into the deleted node's record. The
deleted node's links are set to the sentinel (NULL in C) and its key to 0.

## Model

| member | source | states |
|---|---|---|
| Keys.Sub | src/core/ngx_rbtree.h:20 | unsigned key subtraction wraps modulo 2^64 and equals the plain difference when it does not underflow |
| Keys.Signed | src/core/ngx_rbtree.h:21 | the signed reading of a key word lies in [-2^63, 2^63), agrees with it modulo 2^64, and is negative exactly for words of at least 2^63 |
| Keys.Rank | src/core/ngx_rbtree.h:85-93 | a key's place on the line the policy orders by; inside the window it lies in [0, 2^64) |
| Keys.PrecedesIsRankOrder | src/core/ngx_rbtree.h:76-93 | inside the window, each policy's comparison holds exactly when the ranks are in strict order, so the timer comparison is a strict order across the wrap point |
| Keys.TimerLessNeedsWindow | src/core/ngx_rbtree.h:85-93 | outside the window the timer comparison is not an order: two keys 2^63 apart each precede the other |
| Keys.TimerOrderAcrossWrap | src/core/ngx_rbtree.h:85-93 | keys just below the unsigned wrap point come before small keys under the timer comparison, and after them under the plain one |
| Colours.Paint | src/core/ngx_rbtree.h:105-107 | writing a colour byte sets it, and the node reads as red exactly when the byte is non-zero |
| Colours.PaintSameLinks | src/core/ngx_rbtree.h:105-109 | a colour write changes no link, no key and no other record |
| Colours.SameLinksShape | src/core/ngx_rbtree.h:105-109 | states with the same links have the same shape and the same in-order keys |
| Rbtree.Tree.Init | src/core/ngx_rbtree.h:55-59 | after initialisation the sentinel is black and is the root, so the tree is empty; the policy is the one given; no other record changes |
| Rbtree.Tree.SetRed | src/core/ngx_rbtree.h:105 | `ngx_rbt_red` writes colour byte 1 to one record and changes nothing else |
| Rbtree.Tree.SetBlack | src/core/ngx_rbtree.h:106 | `ngx_rbt_black` writes colour byte 0 to one record and changes nothing else |
| Rbtree.Tree.CopyColor | src/core/ngx_rbtree.h:109 | `ngx_rbt_copy_color(n1, n2)` gives n1 the colour byte of n2 and changes nothing else |
| Rotation.RotatedIsRotation | src/core/ngx_rbtree.h:67 | the writes of a rotation relink exactly x, its child y, y's inner child b and x's parent |
| Rbtree.Tree.Rotate | src/core/ngx_rbtree.h:67 | a left or right rotation leaves exactly the state `RotationOf` describes |
| Rotation.RotatedShape | src/core/ngx_rbtree.h:67 | a rotation keeps the links a binary tree with the same in-order sequence |
| Rotation.RotatedKeysColours | src/core/ngx_rbtree.h:67 | a rotation changes no key and no colour |
| Placement.Descend | src/core/ngx_rbtree.h:82-93 | one step of the placement descent keeps the new key between the keys before and after the current subtree, or reaches the empty slot where the key fits |
| Rbtree.Tree.Place | src/core/ngx_rbtree.h:82-93 | both placement routines hang the new node as a red leaf in the empty slot where its key fits the in-order sequence |
| Rbtree.Tree.Hang | src/core/ngx_rbtree.h:82-93 | the final writes of placement make the node a red leaf under the slot's owner, moving the later positions up by one |
| Placement.AttachShape | src/core/ngx_rbtree.h:82-93 | hanging a leaf keeps the links a binary tree with the new in-order sequence |
| Placement.AttachSorted | src/core/ngx_rbtree.h:82-93 | a leaf hung where its key fits keeps the in-order keys sorted and inside the window |
| Placement.AttachColours | src/core/ngx_rbtree.h:62-67 | a red leaf in a red-black tree breaks at most the red-parent rule, and only at the leaf |
| Placement.FirstTree | src/core/ngx_rbtree.h:62-67 | the first node of an empty tree makes a sorted one-node red-black tree |
| Placement.PlacedTree | src/core/ngx_rbtree.h:62-67 | after placement the tree is sorted and red-black except at the leaf, and the in-order sequence is the old one with the node inserted |
| InsertFixup.InsUncleRed | src/core/ngx_rbtree.h:62-67 | parent and uncle red: recolouring moves the violation to the grandparent, whose subtree is larger, and keeps keys and order |
| InsertFixup.InsInner | src/core/ngx_rbtree.h:62-67 | uncle black and x the inner grandchild: the rotation at the parent turns it into the outer case |
| InsertFixup.InsOuter | src/core/ngx_rbtree.h:62-67 | uncle black and x the outer grandchild: recolouring and rotating at the grandparent ends the loop |
| InsertFixup.InsFinish | src/core/ngx_rbtree.h:62-67 | when the loop stops, painting the root black leaves a red-black tree |
| Rbtree.Tree.Insert | src/core/ngx_rbtree.h:62-67 | insert links exactly the given node: the result is a sorted red-black tree whose in-order sequence is the old one with the node added at the one position where its key fits: after every key the new key does not precede under the policy, so after every equal key, and before every key it precedes; every key and every data byte is unchanged, and every record outside the old tree other than the node and the sentinel is left as it was |
| Rbtree.Tree.Rebalance | src/core/ngx_rbtree.h:62-67 | the rebalancing loop ends in a sorted red-black tree with the same keys and in-order sequence |
| Rbtree.Tree.Recolour | src/core/ngx_rbtree.h:62-67 | the red-uncle writes paint parent and uncle black and the grandparent red, nothing else |
| Placement.AttachedFrame | src/core/ngx_rbtree.h:82-93 | hanging a leaf, and steps that keep the frame, change no data byte and no record outside the tree but the new node and the sentinel |
| Rotation.RotationFramed | src/core/ngx_rbtree.h:67 | a rotation changes no data byte and no record outside the tree |
| Rbtree.Tree.InsertStep | src/core/ngx_rbtree.h:62-67 | each pass of the loop keeps its invariant and either ends the loop or moves up to a larger subtree |
| Rbtree.Tree.Delete | src/core/ngx_rbtree.h:69-74 | delete unlinks exactly the given node: the result is a sorted red-black tree whose in-order sequence is the old one without that node, every other key unchanged, the node unlinked with key 0, and the tree empty (root equal to the sentinel) exactly when the node was the only one; every data byte is unchanged, and every record outside the old tree other than the sentinel is left as it was |
| Deletion.RootDeleted | src/core/ngx_rbtree.h:69-74 | deleting a root with at most one child meets delete's promise: the child becomes the black root |
| Deletion.SplicedDeleted | src/core/ngx_rbtree.h:69-74 | a splice followed by a rebalancing that keeps keys and order meets delete's promise |
| Rbtree.Tree.RemoveRoot | src/core/ngx_rbtree.h:69-74 | when the node leaving its slot is the root, its child becomes the black root and the node is cleared, meeting delete's promise |
| Rbtree.Tree.RemoveSpliced | src/core/ngx_rbtree.h:69-74 | otherwise the splice, followed by the rebalancing loop when a black node left its slot, meets delete's promise |
| DeleteRoot.RootShape | src/core/ngx_rbtree.h:69-74 | deleting the root leaves a binary tree of the other nodes, empty exactly when the root was alone |
| DeleteRoot.RootRedBlack | src/core/ngx_rbtree.h:69-74 | deleting the root with at most one child keeps the red-black rules |
| DeleteRoot.RootKeys | src/core/ngx_rbtree.h:69-74 | deleting the root keeps every other key in its in-order place, sorted and inside the window |
| Rbtree.Tree.Splice | src/core/ngx_rbtree.h:69-74 | the writes that take a non-root node out of its slot, relink the successor into the deleted node's place and clear the deleted record leave exactly the state `SplicedOf` describes |
| Rbtree.Tree.Unhook | src/core/ngx_rbtree.h:69-74 | the removed node's parent takes its child in the removed slot and the child points back, nothing else changes |
| Rbtree.Tree.Relink | src/core/ngx_rbtree.h:69-74 | the successor takes the deleted node's links, colour and slot (or the root), and the children point back at it |
| Rbtree.Tree.Clear | src/core/ngx_rbtree.h:69-74 | the deleted node's links are reset to the sentinel and its key to 0, and the in-order bookkeeping drops its entry |
| DeleteSplice.SplicedIsSplice | src/core/ngx_rbtree.h:69-74 | the splice's writes change exactly the removed slot's parent, the child, the successor, the deleted node's parent and children, and the deleted node |
| DeleteSplice.SpliceShape | src/core/ngx_rbtree.h:69-74 | the splice leaves a non-empty binary tree whose in-order walk is one shorter |
| DeleteSplice.SpliceKeys | src/core/ngx_rbtree.h:69-74 | the splice drops exactly the deleted node's entry from the in-order keys and keeps them sorted and inside the window |
| DeleteSplice.Unlinked | src/core/ngx_rbtree.h:69-74 | a node whose entry leaves the in-order walk is no longer linked |
| DeleteSplice.SpliceRed | src/core/ngx_rbtree.h:69-74 | when the node that left its slot was red, the tree is red-black at once and the loop is skipped |
| DeleteSplice.SpliceBlack | src/core/ngx_rbtree.h:69-74 | when it was black, the tree is in the state the loop starts from: red-black except that the child's subtree is one black level short |
| Rbtree.Tree.DeleteRebalance | src/core/ngx_rbtree.h:69-74 | the delete rebalancing loop ends in a red-black tree with the same keys and in-order sequence |
| Rbtree.Tree.DeleteStep | src/core/ngx_rbtree.h:69-74 | each pass of the loop keeps its invariant and moves to a wider subtree, or to the root, which ends it |
| Rbtree.Tree.DeleteBlackSibling | src/core/ngx_rbtree.h:69-74 | with a black sibling, either both nephews are black and the shortage moves to the parent, or the far-nephew rotation ends the loop at the root |
| Rbtree.Tree.DeleteRedSibling | src/core/ngx_rbtree.h:69-74 | a red sibling is turned into a black one by recolouring and a rotation at the parent, keeping the invariant and the subtree |
| Rbtree.Tree.DeleteNephewsBlack | src/core/ngx_rbtree.h:69-74 | both nephews black: painting the sibling red moves the shortage to the parent |
| Rbtree.Tree.DeleteNearRed | src/core/ngx_rbtree.h:69-74 | far nephew black: recolouring and a rotation at the sibling make the far nephew red |
| Rbtree.Tree.DeleteFarRed | src/core/ngx_rbtree.h:69-74 | far nephew red: the sibling takes the parent's colour, parent and far nephew turn black, and a rotation at the parent removes the shortage |
| Rbtree.Tree.FarPaint | src/core/ngx_rbtree.h:69-74 | the colour writes of the far-nephew case: the sibling takes the parent's colour, parent and far nephew turn black, nothing else changes |
| Rbtree.Tree.FarRotate | src/core/ngx_rbtree.h:69-74 | the rotation at the parent in the far-nephew case leaves exactly the rotated state, with the parent one black level lower and the sibling at the parent's old height |
| Rbtree.Tree.DeleteFinish | src/core/ngx_rbtree.h:69-74 | painting black the node the loop stopped at leaves a red-black tree with the same keys and order, and outside records and data untouched |
| DeleteSplice.SpliceOutside | src/core/ngx_rbtree.h:69-74 | a record outside the tree, other than the sentinel, is unchanged by the splice and stays out of the in-order walk |
| DeleteSplice.SpliceFrame | src/core/ngx_rbtree.h:69-74 | the splice and a rebalancing that keeps the frame change no data byte and no record outside the old tree but the deleted node and the sentinel |
| DeleteFixup.DelNephewsBlack | src/core/ngx_rbtree.h:69-74 | both nephews black: the loop invariant holds one level up with keys and order kept |
| DeleteFixup.DelRedSibling | src/core/ngx_rbtree.h:69-74 | red sibling: after the rotation the invariant holds at the same node, whose new sibling is black |
| DeleteFixup.DelNearRed | src/core/ngx_rbtree.h:69-74 | near nephew red: after the rotation the sibling is black with a red far nephew |
| DeleteFixup.DelFarRed | src/core/ngx_rbtree.h:69-74 | far nephew red: after the rotation nothing is short and the loop can end at the root |
| DeleteFixup.DelFinish | src/core/ngx_rbtree.h:69-74 | when the loop stops at the root or a red node, painting it black leaves a red-black tree |
| Rbtree.Tree.Min | src/core/ngx_rbtree.h:121-129 | the minimum follows left links to the first node of the subtree, modifies nothing, and in a sorted tree no key of the subtree precedes the one it returns |
| Layout.MinFirst | src/core/ngx_rbtree.h:116-129 | the first node of a subtree in a sorted tree holds a key that no key of the subtree precedes |
| Rbtree.Tree.Next | src/core/ngx_rbtree.h:96-102 | the successor is the node at the next in-order position, and none exactly at the last one |
| Rbtree.Tree.Walk | src/core/ngx_rbtree.h:116-117 | calling next repeatedly from the minimum of the root visits exactly the in-order sequence, each linked node once |

## Left out

- The bodies of `src/core/ngx_rbtree.c` are not among the cited sources.
  Insert, delete, the two placement routines, the rotations and next are
  modelled as nginx implements them; the header declares them.
- The NULL parent pointer of the root is written as the sentinel handle.
  No routine follows the root's parent.
- Key width is fixed at 64 bits (`ngx_uint_t` on a 64-bit platform).
- Placement routines other than the two the header declares are not
  modelled. The function pointer is a two-valued policy.
- The timer policy orders keys only inside a window of 2^63 above some
  base time. `Insert` and `Place` require every key in that window
  (the ghost `base`). Plain keys need no window.
- `src/core/ngx_array.h` is not modelled: it is allocation plumbing unrelated
  to the tree.
- Concurrency, memory ownership and pointer aliasing beyond the records of
  the arena are not modelled.
- Caller misuse is not detected; the operations require it away. Examples
  are inserting a linked node, deleting a foreign node, or changing a
  linked key.
- Rbtree.Tree.Delete: the contract says the deleted node is unlinked with
  key 0, but does not restate that its links stay at the sentinel after the
  rebalancing loop; `Rbtree.Tree.Clear` states the clearing itself.
- In the root branch of delete, the new root's parent link keeps pointing
  at the cleared record, as in the nginx code; no routine reads it.
- Rbtree.Tree.Place, Rbtree.Tree.Hang, Rbtree.Tree.Insert, Rbtree.Tree.Rebalance,
  Rbtree.Tree.InsertStep: the placement routines and the rebalancing loop are
  split into these methods. The C code runs them as one routine each, with
  the same statements in the same order. Delete is split the same way into
  Rbtree.Tree.RemoveRoot, Rbtree.Tree.RemoveSpliced, Rbtree.Tree.Splice,
  Rbtree.Tree.Unhook, Rbtree.Tree.Relink, Rbtree.Tree.Clear,
  Rbtree.Tree.DeleteRebalance, Rbtree.Tree.DeleteStep, Rbtree.Tree.DeleteFinish,
  the sibling-case methods, Rbtree.Tree.FarPaint and Rbtree.Tree.FarRotate;
  the red-uncle writes of insert are Rbtree.Tree.Recolour.
