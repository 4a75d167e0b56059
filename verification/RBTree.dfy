/** The red-black tree of rbtree/src/RBTree.java: nodes with parent pointers below a sentinel,
    updated in place. */
module RBTrees {
  import opened RedBlack

  /** A node. Every setter says what it does to a snapshot of any set of nodes around it. */
  class RBTreeNode {
    var value: Value
    var left: RBTreeNode?
    var right: RBTreeNode?
    var parent: RBTreeNode?
    var red: bool

    constructor (v: Value)
      ensures value == v && left == null && right == null && parent == null && !red
    {
      value, left, right, parent, red := v, null, null, null, false;
    }

    method SetLeft(n: RBTreeNode?, ghost nodes: set<RBTreeNode>)
      requires this in nodes
      modifies this`left
      ensures Snap(nodes) == old(Snap(nodes))[this := old(Snap(nodes))[this].(left := n)]
    {
      left := n;
    }

    method SetRight(n: RBTreeNode?, ghost nodes: set<RBTreeNode>)
      requires this in nodes
      modifies this`right
      ensures Snap(nodes) == old(Snap(nodes))[this := old(Snap(nodes))[this].(right := n)]
    {
      right := n;
    }

    method SetParent(n: RBTreeNode?, ghost nodes: set<RBTreeNode>)
      requires this in nodes
      modifies this`parent
      ensures Snap(nodes) == old(Snap(nodes))[this := old(Snap(nodes))[this].(parent := n)]
    {
      parent := n;
    }

    method SetRed(r: bool, ghost nodes: set<RBTreeNode>)
      requires this in nodes
      modifies this`red
      ensures Snap(nodes) == old(Snap(nodes))[this := old(Snap(nodes))[this].(red := r)]
    {
      red := r;
    }

    method SetValue(v: Value, ghost nodes: set<RBTreeNode>)
      requires this in nodes
      modifies this`value
      ensures Snap(nodes) == old(Snap(nodes))[this := old(Snap(nodes))[this].(value := v)]
    {
      value := v;
    }
  }

  type Nodes = Tree<RBTreeNode>
  type Way = Ctx<RBTreeNode>

  // ---------- the nodes of a tree and of a context ----------

  ghost function Ids(t: Nodes): set<RBTreeNode> {
    if t.Leaf? then {} else Ids(t.left) + {t.id} + Ids(t.right)
  }

  ghost function CtxIds(c: Way): set<RBTreeNode> {
    if c.Top? then {} else {c.id} + Ids(c.other) + CtxIds(c.up)
  }

  ghost predicate Distinct(t: Nodes) {
    t.Node? ==>
      && Distinct(t.left) && Distinct(t.right)
      && t.id !in Ids(t.left) && t.id !in Ids(t.right) && Ids(t.left) !! Ids(t.right)
  }

  ghost predicate CtxDistinct(c: Way) {
    !c.Top? ==>
      && Distinct(c.other) && CtxDistinct(c.up)
      && c.id !in Ids(c.other) && c.id !in CtxIds(c.up) && Ids(c.other) !! CtxIds(c.up)
  }

  function RootId(t: Nodes): RBTreeNode? { if t.Leaf? then null else t.id }
  function CtxId(c: Way): RBTreeNode? { if c.Top? then null else c.id }

  // ---------- what the fields of the nodes say ----------

  datatype Fields = Fields(left: RBTreeNode?, right: RBTreeNode?, parent: RBTreeNode?, red: bool, value: Value)

  /** The fields of a set of nodes at one moment. */
  type Snapshot = map<RBTreeNode, Fields>

  ghost function Snap(nodes: set<RBTreeNode>): (h: Snapshot)
    reads nodes
    ensures h.Keys == nodes
    ensures forall o :: o in nodes ==> h[o] == Fields(o.left, o.right, o.parent, o.red, o.value)
  {
    map o | o in nodes :: Fields(o.left, o.right, o.parent, o.red, o.value)
  }

  /** In h the nodes of t are linked as t says; p is the parent of its root. */
  ghost predicate Rep(h: Snapshot, t: Nodes, p: RBTreeNode?)
    decreases t
  {
    t.Node? ==>
      && t.id in h && h[t.id] == Fields(RootId(t.left), RootId(t.right), p, t.red, t.val)
      && Rep(h, t.left, t.id) && Rep(h, t.right, t.id)
  }

  /** In h the nodes from the sentinel down to the place where n hangs form the context c. */
  ghost predicate RepCtx(h: Snapshot, c: Way, n: RBTreeNode?, root: RBTreeNode)
    decreases c
  {
    match c
    case Top => root in h && h[root].left == n
    case InLeft(red, id, v, other, up) =>
      && id in h && h[id] == Fields(n, RootId(other), CtxId(up), red, v)
      && Rep(h, other, id) && RepCtx(h, up, id, root)
    case InRight(red, id, v, other, up) =>
      && id in h && h[id] == Fields(RootId(other), n, CtxId(up), red, v)
      && Rep(h, other, id) && RepCtx(h, up, id, root)
  }

  ghost predicate Apart(c: Way, t: Nodes, root: RBTreeNode) {
    Distinct(t) && CtxDistinct(c) && Ids(t) !! CtxIds(c) && root !in Ids(t) && root !in CtxIds(c)
  }

  ghost function All(c: Way, t: Nodes, root: RBTreeNode): set<RBTreeNode> { Ids(t) + CtxIds(c) + {root} }

  /** In h, t hangs below c. */
  ghost predicate At(h: Snapshot, c: Way, t: Nodes, root: RBTreeNode) {
    Apart(c, t, root) && RepCtx(h, c, RootId(t), root) && Rep(h, t, CtxId(c))
  }

  /** h and h' agree on these nodes. */
  ghost predicate Agree(h: Snapshot, h': Snapshot, nodes: set<RBTreeNode>) {
    forall o :: o in nodes && o in h ==> o in h' && h'[o] == h[o]
  }

  /** A part of the tree that nobody touched. */
  lemma {:induction false} RepKept(h: Snapshot, h': Snapshot, t: Nodes, p: RBTreeNode?)
    requires Rep(h, t, p) && Agree(h, h', Ids(t))
    ensures Rep(h', t, p)
    decreases t
  {
    if t.Node? {
      RepKept(h, h', t.left, t.id);
      RepKept(h, h', t.right, t.id);
    }
  }

  /** A part of the tree whose root got another parent. */
  lemma RepMoved(h: Snapshot, h': Snapshot, t: Nodes, q: RBTreeNode?, p: RBTreeNode?)
    requires Distinct(t) && Rep(h, t, q) && Agree(h, h', Ids(t) - if t.Leaf? then {} else {t.id})
    requires t.Node? ==> t.id in h' && h'[t.id] == h[t.id].(parent := p)
    ensures Rep(h', t, p)
  {
    if t.Node? {
      RepKept(h, h', t.left, t.id);
      RepKept(h, h', t.right, t.id);
    }
  }

  lemma {:induction false} CtxKept(h: Snapshot, h': Snapshot, c: Way, n: RBTreeNode?, root: RBTreeNode)
    requires RepCtx(h, c, n, root) && Agree(h, h', CtxIds(c) + {root})
    ensures RepCtx(h', c, n, root)
    decreases c
  {
    if !c.Top? {
      RepKept(h, h', c.other, c.id);
      CtxKept(h, h', c.up, c.id, root);
    }
  }

  /** The node at which c ends, or the sentinel. */
  function Holder(c: Way, root: RBTreeNode): RBTreeNode { if c.Top? then root else c.id }

  /** The place below c where n hung now holds m. */
  lemma CtxMoved(h: Snapshot, h': Snapshot, c: Way, n: RBTreeNode?, m: RBTreeNode?, root: RBTreeNode)
    requires CtxDistinct(c) && root !in CtxIds(c) && RepCtx(h, c, n, root)
    requires Agree(h, h', CtxIds(c) + {root} - {Holder(c, root)})
    requires Holder(c, root) in h && Holder(c, root) in h'
    requires c.Top? || c.InLeft? ==> h'[Holder(c, root)] == h[Holder(c, root)].(left := m)
    requires c.InRight? ==> h'[Holder(c, root)] == h[Holder(c, root)].(right := m)
    ensures RepCtx(h', c, m, root)
  {
    if !c.Top? {
      RepKept(h, h', c.other, c.id);
      CtxKept(h, h', c.up, c.id, root);
    }
  }

  lemma RootIn(t: Nodes)
    ensures t.Node? ==> t.id in Ids(t) && Ids(t.left) <= Ids(t) && Ids(t.right) <= Ids(t)
  {
  }

  lemma CtxIn(c: Way)
    ensures !c.Top? ==> c.id in CtxIds(c) && Ids(c.other) <= CtxIds(c) && CtxIds(c.up) <= CtxIds(c)
  {
  }

  /** The parts of a tree with a right child are all different nodes. */
  lemma RotateLeftApart(c: Way, t: Nodes, root: RBTreeNode)
    requires Apart(c, t, root) && t.Node? && t.right.Node?
    ensures Apart(c, RedBlack.RotateLeft(t), root) && Ids(RedBlack.RotateLeft(t)) == Ids(t)
    ensures Ids(t.left) !! Ids(t.right.left) && Ids(t.left) !! Ids(t.right.right)
      && Ids(t.right.left) !! Ids(t.right.right)
    ensures Distinct(t.left) && Distinct(t.right.left) && Distinct(t.right.right)
    ensures t.id != t.right.id && {t.id, t.right.id} !! Ids(t.left) + Ids(t.right.left) + Ids(t.right.right)
    ensures Ids(t) == {t.id, t.right.id} + Ids(t.left) + Ids(t.right.left) + Ids(t.right.right)
  {
    var r := RedBlack.RotateLeft(t);
    assert Ids(t.right) == Ids(t.right.left) + {t.right.id} + Ids(t.right.right) && Distinct(t.right);
    assert r.left == Node(t.left, t.red, t.id, t.val, t.right.left) && r.right == t.right.right && r.id == t.right.id;
    assert Ids(r.left) == Ids(t.left) + {t.id} + Ids(t.right.left) && Distinct(r.left);
  }

  ghost function Linked(h: Snapshot, n: RBTreeNode?, p: RBTreeNode?): Snapshot {
    if n == null || n !in h then h else h[n := h[n].(parent := p)]
  }

  /** The sentinel is none of the nodes. */
  lemma AtApart(h: Snapshot, c: Way, t: Nodes, root: RBTreeNode)
    requires At(h, c, t, root)
    ensures Apart(c, t, root) && (!c.Top? ==> c.id != root)
    ensures t.Node? ==> t.id != root && RootId(t.left) != root && RootId(t.right) != root
  {
    if t.Node? {
      RootIn(t.left);
      RootIn(t.right);
    }
  }

  ghost function Reddened(h: Snapshot, m: RBTreeNode, red: bool): (h': Snapshot)
    requires m in h
    ensures m in h'
  {
    h[m := h[m].(red := red)]
  }

  lemma LinkedIs(n: RBTreeNode, p: RBTreeNode)
    ensures forall h: Snapshot :: n in h ==> Linked(h, n, p) == h[n := h[n].(parent := p)]
  {
  }

  /** y takes the place of x below p. */
  ghost function Replaced(h: Snapshot, x: RBTreeNode, y: RBTreeNode, p: RBTreeNode?, root: RBTreeNode): Snapshot
    requires x in h && y in h && root in h && (p != null ==> p in h)
  {
    if p == null then
      var h4 := h[root := h[root].(left := y)];
      h4[y := h4[y].(parent := null)]
    else
      var h4 := if h[p].left == x then h[p := h[p].(left := y)] else h[p := h[p].(right := y)];
      h4[y := h4[y].(parent := p)]
  }

  /** The first half of rotateLeft at x: y's left child b goes to x, and x below y. */
  ghost function ShiftedLeft(h: Snapshot, x: RBTreeNode, y: RBTreeNode, b: RBTreeNode?): (h': Snapshot)
    requires x in h && y in h
    ensures h'.Keys == h.Keys
  {
    var h1 := Linked(h[x := h[x].(right := b)], b, x);
    var h2 := h1[y := h1[y].(left := x)];
    h2[x := h2[x].(parent := y)]
  }

  ghost function ShiftedRight(h: Snapshot, x: RBTreeNode, y: RBTreeNode, b: RBTreeNode?): (h': Snapshot)
    requires x in h && y in h
    ensures h'.Keys == h.Keys
  {
    var h1 := Linked(h[x := h[x].(left := b)], b, x);
    var h2 := h1[y := h1[y].(right := x)];
    h2[x := h2[x].(parent := y)]
  }

  /** rotateLeft at x, field by field. */
  ghost function RotatedLeft(h: Snapshot, x: RBTreeNode, y: RBTreeNode, b: RBTreeNode?, p: RBTreeNode?,
                             root: RBTreeNode): Snapshot
    requires x in h && y in h && root in h && (p != null ==> p in h)
  {
    Replaced(ShiftedLeft(h, x, y, b), x, y, p, root)
  }

  /** Field by field, for different nodes x, y, b and the holder of x. */
  lemma RotatedLeftFields(h: Snapshot, x: RBTreeNode, y: RBTreeNode, b: RBTreeNode?, c: Way, root: RBTreeNode)
    requires x in h && y in h && Holder(c, root) in h && root in h && (b != null ==> b in h)
    requires x != y && b != x && b != y && Holder(c, root) !in {x, y} && Holder(c, root) != b
      && (!c.Top? ==> c.id != root)
    requires c.Top? ==> root !in {x, y} && root != b
    requires c.InLeft? ==> h[c.id].left == x
    requires c.InRight? ==> h[c.id].left != x
    ensures RotatedLeft(h, x, y, b, CtxId(c), root).Keys == h.Keys
    ensures RotatedLeft(h, x, y, b, CtxId(c), root)[x] == h[x].(right := b, parent := y)
    ensures RotatedLeft(h, x, y, b, CtxId(c), root)[y] == h[y].(left := x, parent := CtxId(c))
    ensures b != null ==> RotatedLeft(h, x, y, b, CtxId(c), root)[b] == h[b].(parent := x)
    ensures RotatedLeft(h, x, y, b, CtxId(c), root)[Holder(c, root)]
      == if c.InRight? then h[Holder(c, root)].(right := y) else h[Holder(c, root)].(left := y)
    ensures forall o :: o in h && o !in {x, y, Holder(c, root)} && o != b ==>
      RotatedLeft(h, x, y, b, CtxId(c), root)[o] == h[o]
  {
  }

  ghost function Rest(t: Nodes): set<RBTreeNode> { if t.Leaf? then {} else Ids(t) - {t.id} }

  /** The pieces around a left rotation, put together again. */
  lemma LeftPieces(h: Snapshot, h': Snapshot, c: Way, t: Nodes, root: RBTreeNode)
    requires Apart(c, t, root) && RepCtx(h, c, RootId(t), root) && t.Node? && t.right.Node? && Distinct(t.right.left)
    requires Rep(h, t.left, t.id) && Rep(h, t.right.left, t.right.id) && Rep(h, t.right.right, t.right.id)
    requires Agree(h, h', Ids(t.left)) && Agree(h, h', Rest(t.right.left)) && Agree(h, h', Ids(t.right.right))
    requires Agree(h, h', CtxIds(c) + {root} - {Holder(c, root)}) && Holder(c, root) in h && Holder(c, root) in h'
    requires t.right.left.Node? ==> t.right.left.id in h' && h'[t.right.left.id] == h[t.right.left.id].(parent := t.id)
    requires t.id in h' && h'[t.id] == Fields(RootId(t.left), RootId(t.right.left), t.right.id, t.red, t.val)
    requires t.right.id in h'
      && h'[t.right.id] == Fields(t.id, RootId(t.right.right), CtxId(c), t.right.red, t.right.val)
    requires c.InRight? ==> h'[Holder(c, root)] == h[Holder(c, root)].(right := t.right.id)
    requires !c.InRight? ==> h'[Holder(c, root)] == h[Holder(c, root)].(left := t.right.id)
    ensures At(h', c, RedBlack.RotateLeft(t), root)
  {
    RotateLeftApart(c, t, root);
    RepKept(h, h', t.left, t.id);
    RepMoved(h, h', t.right.left, t.right.id, t.id);
    RepKept(h, h', t.right.right, t.right.id);
    CtxMoved(h, h', c, t.id, t.right.id, root);
    hide Distinct, CtxDistinct, Agree, Ids, CtxIds;
    assert Rep(h', Node(t.left, t.red, t.id, t.val, t.right.left), t.right.id);
  }

  ghost predicate Clear(nodes: set<RBTreeNode>, x: RBTreeNode, y: RBTreeNode, b: RBTreeNode?, p: RBTreeNode) {
    forall o :: o in nodes ==> o != x && o != y && o != b && o != p
  }

  /** Which nodes a left rotation touches, and which not. */
  lemma LeftPlaces(c: Way, t: Nodes, root: RBTreeNode)
    requires Apart(c, t, root) && t.Node? && t.right.Node?
    ensures {t.id, t.right.id} <= Ids(t) && (t.right.left.Node? ==> t.right.left.id in Ids(t))
    ensures t.id != t.right.id && RootId(t.right.left) != t.id && RootId(t.right.left) != t.right.id
    ensures Distinct(t.right.left) && Holder(c, root) !in Ids(t)
    ensures Clear(Ids(t.left), t.id, t.right.id, RootId(t.right.left), Holder(c, root))
    ensures Clear(Ids(t.right.right), t.id, t.right.id, RootId(t.right.left), Holder(c, root))
    ensures Clear(Rest(t.right.left), t.id, t.right.id, RootId(t.right.left), Holder(c, root))
  {
    hide Distinct, CtxDistinct, CtxIds, Ids, Clear, Rest;
    LeftNodes(c, t, root);
    LeftClear(c, t, root);
  }

  lemma LeftNodes(c: Way, t: Nodes, root: RBTreeNode)
    requires Apart(c, t, root) && t.Node? && t.right.Node?
    ensures {t.id, t.right.id} <= Ids(t) && (t.right.left.Node? ==> t.right.left.id in Ids(t))
    ensures t.id != t.right.id && RootId(t.right.left) != t.id && RootId(t.right.left) != t.right.id
    ensures Distinct(t.right.left) && Holder(c, root) !in Ids(t)
  {
    RootIn(t.right.left);
    CtxIn(c);
  }

  lemma LeftClear(c: Way, t: Nodes, root: RBTreeNode)
    requires Apart(c, t, root) && t.Node? && t.right.Node?
    ensures Clear(Ids(t.left), t.id, t.right.id, RootId(t.right.left), Holder(c, root))
    ensures Clear(Ids(t.right.right), t.id, t.right.id, RootId(t.right.left), Holder(c, root))
    ensures Clear(Rest(t.right.left), t.id, t.right.id, RootId(t.right.left), Holder(c, root))
  {
    hide CtxDistinct, CtxIds;
    LeftNodes(c, t, root);
    RootIn(t.right.left);
    assert Distinct(t) && Distinct(t.right);
  }

  lemma CtxPlaces(c: Way, t: Nodes, root: RBTreeNode, x: RBTreeNode, y: RBTreeNode, b: RBTreeNode?)
    requires Apart(c, t, root) && x in Ids(t) && y in Ids(t) && (b != null ==> b in Ids(t))
    ensures Holder(c, root) !in {x, y} && b != Holder(c, root) && (!c.Top? ==> c.id != root)
    ensures root !in {x, y} && root != b && Holder(c, root) in CtxIds(c) + {root}
    ensures Clear(CtxIds(c) + {root} - {Holder(c, root)}, x, y, b, Holder(c, root))
    ensures !c.Top? ==> RootId(c.other) != x
  {
    CtxIn(c);
    if !c.Top? { RootIn(c.other); }
    hide Distinct, CtxDistinct;
  }

  lemma LeftRotated(h: Snapshot, c: Way, t: Nodes, root: RBTreeNode)
    requires At(h, c, t, root) && t.Node? && t.right.Node? && h.Keys == All(c, t, root)
    ensures t.id in h && h[t.id].right == t.right.id && t.right.id in h && h[t.right.id].left == RootId(t.right.left)
    ensures h[t.id].parent == CtxId(c) && root in h && (!c.Top? ==> CtxId(c) in h)
    ensures t.right.left.Node? ==> t.right.left.id in h
    ensures At(RotatedLeft(h, t.id, t.right.id, RootId(t.right.left), CtxId(c), root), c, RedBlack.RotateLeft(t), root)
  {
    hide RotatedLeft, Ids, CtxIds, Distinct, CtxDistinct, Rest;
    LeftPlaces(c, t, root);
    CtxPlaces(c, t, root, t.id, t.right.id, RootId(t.right.left));
    assert Rep(h, t.right, t.id);
    RotatedLeftFields(h, t.id, t.right.id, RootId(t.right.left), c, root);
    LeftPieces(h, RotatedLeft(h, t.id, t.right.id, RootId(t.right.left), CtxId(c), root), c, t, root);
  }

  // ---------- left and right swapped ----------

  ghost function Mirror(t: Nodes): Nodes {
    if t.Leaf? then t else Node(Mirror(t.right), t.red, t.id, t.val, Mirror(t.left))
  }

  ghost function MirrorCtx(c: Way): Way {
    match c
    case Top => Top
    case InLeft(red, id, v, other, up) => InRight(red, id, v, Mirror(other), MirrorCtx(up))
    case InRight(red, id, v, other, up) => InLeft(red, id, v, Mirror(other), MirrorCtx(up))
  }

  /** Every node but the sentinel seen in a mirror. */
  ghost function MirrorSnap(h: Snapshot, root: RBTreeNode): Snapshot {
    map o | o in h :: if o == root then h[o] else Fields(h[o].right, h[o].left, h[o].parent, h[o].red, h[o].value)
  }

  lemma {:induction false} MirrorTree(t: Nodes)
    ensures Mirror(Mirror(t)) == t && Ids(Mirror(t)) == Ids(t) && (Distinct(t) ==> Distinct(Mirror(t)))
  {
    if t.Node? {
      MirrorTree(t.left);
      MirrorTree(t.right);
    }
  }

  lemma {:induction false} MirrorWay(c: Way)
    ensures MirrorCtx(MirrorCtx(c)) == c && CtxIds(MirrorCtx(c)) == CtxIds(c)
      && (CtxDistinct(c) ==> CtxDistinct(MirrorCtx(c)))
  {
    if !c.Top? {
      MirrorTree(c.other);
      MirrorWay(c.up);
    }
  }

  lemma {:induction false} MirrorRep(h: Snapshot, t: Nodes, p: RBTreeNode?, root: RBTreeNode)
    requires Rep(h, t, p) && root !in Ids(t)
    ensures Rep(MirrorSnap(h, root), Mirror(t), p)
  {
    if t.Node? {
      MirrorRep(h, t.left, t.id, root);
      MirrorRep(h, t.right, t.id, root);
    }
  }

  lemma {:induction false} MirrorRepCtx(h: Snapshot, c: Way, n: RBTreeNode?, root: RBTreeNode)
    requires RepCtx(h, c, n, root) && root !in CtxIds(c)
    ensures RepCtx(MirrorSnap(h, root), MirrorCtx(c), n, root)
  {
    if !c.Top? {
      MirrorRep(h, c.other, c.id, root);
      MirrorRepCtx(h, c.up, c.id, root);
    }
  }

  lemma MirrorAt(h: Snapshot, c: Way, t: Nodes, root: RBTreeNode)
    requires At(h, c, t, root)
    ensures At(MirrorSnap(h, root), MirrorCtx(c), Mirror(t), root)
    ensures All(MirrorCtx(c), Mirror(t), root) == All(c, t, root)
  {
    MirrorTree(t);
    MirrorWay(c);
    MirrorRep(h, t, CtxId(c), root);
    MirrorRepCtx(h, c, RootId(t), root);
  }

  /** rotateRight at x, field by field. */
  ghost function RotatedRight(h: Snapshot, x: RBTreeNode, y: RBTreeNode, b: RBTreeNode?, p: RBTreeNode?,
                              root: RBTreeNode): Snapshot
    requires x in h && y in h && root in h && (p != null ==> p in h)
  {
    Replaced(ShiftedRight(h, x, y, b), x, y, p, root)
  }

  lemma RotatedRightFields(h: Snapshot, x: RBTreeNode, y: RBTreeNode, b: RBTreeNode?, c: Way, root: RBTreeNode)
    requires x in h && y in h && Holder(c, root) in h && root in h && (b != null ==> b in h)
    requires x != y && b != x && b != y && Holder(c, root) !in {x, y} && Holder(c, root) != b
      && (!c.Top? ==> c.id != root)
    requires c.Top? ==> root !in {x, y} && root != b
    requires c.InLeft? ==> h[c.id].left == x
    requires c.InRight? ==> h[c.id].left != x
    ensures RotatedRight(h, x, y, b, CtxId(c), root).Keys == h.Keys
    ensures RotatedRight(h, x, y, b, CtxId(c), root)[x] == h[x].(left := b, parent := y)
    ensures RotatedRight(h, x, y, b, CtxId(c), root)[y] == h[y].(right := x, parent := CtxId(c))
    ensures b != null ==> RotatedRight(h, x, y, b, CtxId(c), root)[b] == h[b].(parent := x)
    ensures RotatedRight(h, x, y, b, CtxId(c), root)[Holder(c, root)]
      == if c.InRight? then h[Holder(c, root)].(right := y) else h[Holder(c, root)].(left := y)
    ensures forall o :: o in h && o !in {x, y, Holder(c, root)} && o != b ==>
      RotatedRight(h, x, y, b, CtxId(c), root)[o] == h[o]
  {
  }

  lemma RotatedRightMirrors(h: Snapshot, x: RBTreeNode, y: RBTreeNode, b: RBTreeNode?, c: Way, root: RBTreeNode)
    requires x in h && y in h && Holder(c, root) in h && root in h && (b != null ==> b in h)
    requires x != y && b != x && b != y && Holder(c, root) !in {x, y} && Holder(c, root) != b
      && (!c.Top? ==> c.id != root)
    requires root !in {x, y} && root != b
    requires c.InLeft? ==> h[c.id].left == x && h[c.id].right != x
    requires c.InRight? ==> h[c.id].right == x && h[c.id].left != x
    ensures RotatedRight(h, x, y, b, CtxId(c), root)
      == MirrorSnap(RotatedLeft(MirrorSnap(h, root), x, y, b, CtxId(c), root), root)
  {
    hide RotatedLeft, RotatedRight;
    RotatedLeftFields(MirrorSnap(h, root), x, y, b, MirrorCtx(c), root);
    RotatedRightFields(h, x, y, b, c, root);
  }

  lemma RotateRightIds(t: Nodes)
    requires t.Node? && t.left.Node?
    ensures Ids(RedBlack.RotateRight(t)) == Ids(t)
  {
    var r := RedBlack.RotateRight(t);
    assert Ids(t.left) == Ids(t.left.left) + {t.left.id} + Ids(t.left.right);
    assert Ids(r.right) == Ids(t.left.right) + {t.id} + Ids(t.right);
  }

  lemma RightRotated(h: Snapshot, c: Way, t: Nodes, root: RBTreeNode)
    requires At(h, c, t, root) && t.Node? && t.left.Node? && h.Keys == All(c, t, root)
    ensures t.id in h && h[t.id].left == t.left.id && t.left.id in h && h[t.left.id].right == RootId(t.left.right)
    ensures h[t.id].parent == CtxId(c) && root in h && (!c.Top? ==> CtxId(c) in h)
    ensures t.left.right.Node? ==> t.left.right.id in h
    ensures At(RotatedRight(h, t.id, t.left.id, RootId(t.left.right), CtxId(c), root), c, RedBlack.RotateRight(t), root)
  {
    hide RotatedLeft, RotatedRight, Ids, CtxIds, Distinct, CtxDistinct;
    var hm, cm, tm := MirrorSnap(h, root), MirrorCtx(c), Mirror(t);
    var x, y, b := t.id, t.left.id, RootId(t.left.right);
    assert tm.right == Mirror(t.left);
    assert Mirror(t.left) == Node(Mirror(t.left.right), t.left.red, y, t.left.val, Mirror(t.left.left));
    MirrorAt(h, c, t, root);
    LeftRotated(hm, cm, tm, root);
    MirrorAt(RotatedLeft(hm, x, y, b, CtxId(c), root), cm, RedBlack.RotateLeft(tm), root);
    MirrorWay(c);
    MirrorTree(RedBlack.RotateRight(t));
    assert Mirror(RedBlack.RotateLeft(tm)) == RedBlack.RotateRight(t);
    LeftPlaces(cm, tm, root);
    CtxPlaces(cm, tm, root, x, y, b);
    MirrorTree(if c.Top? then t else c.other);
    RotatedRightMirrors(h, x, y, b, c, root);
  }

  // ---------- moving the point of view, painting ----------

  lemma Up(h: Snapshot, c: Way, t: Nodes, root: RBTreeNode)
    requires At(h, c, t, root) && !c.Top?
    ensures At(h, c.up, Raise(c, t), root) && All(c.up, Raise(c, t), root) == All(c, t, root)
    ensures Raise(c, t).id == c.id
  {
  }

  function LeftOf(c: Way, t: Nodes): Way
    requires t.Node?
  {
    InLeft(t.red, t.id, t.val, t.right, c)
  }

  function RightOf(c: Way, t: Nodes): Way
    requires t.Node?
  {
    InRight(t.red, t.id, t.val, t.left, c)
  }

  lemma Down(h: Snapshot, c: Way, t: Nodes, root: RBTreeNode)
    requires At(h, c, t, root) && t.Node?
    ensures At(h, LeftOf(c, t), t.left, root) && All(LeftOf(c, t), t.left, root) == All(c, t, root)
    ensures At(h, RightOf(c, t), t.right, root) && All(RightOf(c, t), t.right, root) == All(c, t, root)
  {
  }

  lemma Paint(h: Snapshot, c: Way, t: Nodes, root: RBTreeNode, red: bool)
    requires At(h, c, t, root) && t.Node?
    ensures t.id in h && t.id in All(c, t, root)
    ensures At(h[t.id := h[t.id].(red := red)], c, t.(red := red), root)
      && All(c, t.(red := red), root) == All(c, t, root)
  {
    var h' := h[t.id := h[t.id].(red := red)];
    RepKept(h, h', t.left, t.id);
    RepKept(h, h', t.right, t.id);
    CtxKept(h, h', c, t.id, root);
  }

  lemma {:induction false} PlugAt(h: Snapshot, c: Way, t: Nodes, root: RBTreeNode)
    requires At(h, c, t, root)
    ensures At(h, Top, Plug(c, t), root) && All(Top, Plug(c, t), root) == All(c, t, root)
    decreases c
  {
    if !c.Top? {
      Up(h, c, t, root);
      PlugAt(h, c.up, Raise(c, t), root);
    }
  }

  /** What the fields next to a node say. */
  lemma Links(h: Snapshot, c: Way, t: Nodes, root: RBTreeNode)
    requires At(h, c, t, root)
    ensures root in h && (c.Top? ==> h[root].left == RootId(t))
    ensures t.Node? ==> t.id in h && h[t.id] == Fields(RootId(t.left), RootId(t.right), CtxId(c), t.red, t.val)
    ensures !c.Top? ==> c.id in h && h[c.id].parent == CtxId(c.up) && h[c.id].red == c.red && h[c.id].value == c.val
    ensures c.InLeft? ==> h[c.id].left == RootId(t) && h[c.id].right == RootId(c.other)
    ensures c.InRight? ==> h[c.id].right == RootId(t) && h[c.id].left == RootId(c.other)
    ensures !c.Top? && c.other.Node? ==>
      c.other.id in h
      && h[c.other.id] == Fields(RootId(c.other.left), RootId(c.other.right), c.id, c.other.red, c.other.val)
    ensures !c.Top? ==> RootId(t) != RootId(c.other) || t.Leaf?
  {
    RootInSnap(h, c, t, root);
    if !c.Top? { RootIn(c.other); }
    RootIn(t);
  }

  lemma {:induction false} RootInSnap(h: Snapshot, c: Way, t: Nodes, root: RBTreeNode)
    requires At(h, c, t, root)
    ensures root in h
    decreases c
  {
    if !c.Top? {
      Up(h, c, t, root);
      RootInSnap(h, c.up, Raise(c, t), root);
    }
  }

  /** The colours after a rotation of fixInsert: the new top black, the old one red. */
  function Lifted(g: Nodes): Nodes
    requires g.Node? && g.right.Node?
  {
    g.(red := false, right := g.right.(red := true))
  }

  function LiftedMirrored(g: Nodes): Nodes
    requires g.Node? && g.left.Node?
  {
    g.(red := false, left := g.left.(red := true))
  }

  /** One round of the loop of fixInsert. */
  lemma FixInsertStep(c: Way, t: Nodes)
    requires t.Node? && CtxRootBlack(c)
    ensures !CtxRed(c) ==> RedBlack.FixInsert(c, t) == BlackRoot(Plug(c, t))
    ensures CtxRed(c) ==> !c.Top? && !c.up.Top?
    ensures CtxRed(c) && c.up.other.Leaf? ==> RedBlack.FixInsert(c, t) == BlackRoot(Plug(c.up.up, Straighten(c, t)))
    ensures CtxRed(c) && c.up.other.Leaf? ==> Straighten(c, t).Node? && !Straighten(c, t).red
    ensures CtxRed(c) && c.up.other.Node? ==>
      && CtxRootBlack(c.up.up) && RedBlack.FixInsert(c, t) == RedBlack.FixInsert(c.up.up, Recolour(c, t))
      && Recolour(c, t).Node? && Recolour(c, t).id == c.up.id
  {
    if CtxRed(c) { assert CtxRootBlack(c.up); }
  }

  /** Where the loop of fixInsert stands: at the red node t below c, or done but for the root's colour. */
  ghost predicate Climbing(h: Snapshot, c: Way, t: Nodes, straight: bool, x: RBTreeNode, parent: RBTreeNode?,
                           goal: Nodes,
                           nodes: set<RBTreeNode>, root: RBTreeNode) {
    && nodes == All(c, t, root) && At(h, c, t, root) && t.Node?
    && (!straight ==> t.id == x && parent == CtxId(c) && CtxRootBlack(c) && RedBlack.FixInsert(c, t) == goal)
    && (straight ==> BlackRoot(Plug(c, t)) == goal && (parent != null ==> parent in h && !h[parent].red))
  }

  lemma ClimbStarts(h: Snapshot, c: Way, t: Nodes, root: RBTreeNode, nodes: set<RBTreeNode>)
    requires nodes == All(c, t, root) && At(h, c, t, root) && t.Node? && CtxRootBlack(c)
    ensures t.id in h && Climbing(h, c, t, false, t.id, h[t.id].parent, RedBlack.FixInsert(c, t), nodes, root)
  {
    hide At, All, RedBlack.FixInsert;
    Links(h, c, t, root);
  }

  lemma ClimbOpens(h: Snapshot, c: Way, t: Nodes, x: RBTreeNode, parent: RBTreeNode?, goal: Nodes,
                   nodes: set<RBTreeNode>, root: RBTreeNode)
    requires Climbing(h, c, t, false, x, parent, goal, nodes, root)
    ensures nodes == All(c, t, root) && At(h, c, t, root) && t.Node? && t.id == x && parent == CtxId(c)
    ensures CtxRootBlack(c) && RedBlack.FixInsert(c, t) == goal
  {
  }

  lemma ClimbEnds(h: Snapshot, c: Way, t: Nodes, x: RBTreeNode, parent: RBTreeNode?, goal: Nodes,
                  nodes: set<RBTreeNode>, root: RBTreeNode)
    requires nodes == All(c, t, root) && At(h, c, t, root) && t.Node? && BlackRoot(Plug(c, t)) == goal
    requires parent == null || (parent == t.id && !t.red)
    ensures Climbing(h, c, t, true, x, parent, goal, nodes, root)
  {
    hide At, All, Plug, BlackRoot;
    Links(h, c, t, root);
  }

  /** The loop goes on exactly below a red node of the context; when it ends only the root's colour is left. */
  lemma ClimbLinks(h: Snapshot, c: Way, t: Nodes, straight: bool, x: RBTreeNode, parent: RBTreeNode?, goal: Nodes,
                   nodes: set<RBTreeNode>, root: RBTreeNode)
    requires Climbing(h, c, t, straight, x, parent, goal, nodes, root) && h.Keys == nodes
    ensures nodes == All(c, t, root) && At(h, c, t, root) && t.Node?
    ensures parent != null ==> parent in h
    ensures parent != null && h[parent].red ==> !straight && t.id == x && CtxRed(c)
    ensures parent == null || !h[parent].red ==> BlackRoot(Plug(c, t)) == goal
  {
    hide At, All, RedBlack.FixInsert, Plug;
    Links(h, c, t, root);
    if !straight { FixInsertStep(c, t); }
  }

  datatype Option = None | Some(value: Value)

  lemma FindEnds(t: Nodes, k: int)
    requires Sorted(Values(t))
    ensures Descend(Top, t, k).1.Leaf? <==> forall x :: x in Values(t) ==> x.key != k
    ensures Descend(Top, t, k).1.Node? ==> Descend(Top, t, k).1.val in Values(t) && Descend(Top, t, k).1.val.key == k
  {
    if Descend(Top, t, k).1.Leaf? {
      AbsentSplits(t, k);
    } else {
      FoundSplits(t, k);
    }
  }

  lemma Revalue(h: Snapshot, c: Way, t: Nodes, root: RBTreeNode, v: Value)
    requires At(h, c, t, root) && t.Node?
    ensures t.id in h && At(h[t.id := h[t.id].(value := v)], c, t.(val := v), root)
      && All(c, t.(val := v), root) == All(c, t, root)
  {
    var h' := h[t.id := h[t.id].(value := v)];
    RepKept(h, h', t.left, t.id);
    RepKept(h, h', t.right, t.id);
    CtxKept(h, h', c, t.id, root);
  }

  /** A new node hangs where there was nothing. */
  lemma Attached(h: Snapshot, h': Snapshot, c: Way, root: RBTreeNode, n: RBTreeNode, v: Value, red: bool)
    requires At(h, c, Leaf, root) && n !in All(c, Leaf, root) && Holder(c, root) in h && Holder(c, root) in h'
      && n in h'
    requires Agree(h, h', CtxIds(c) + {root} - {Holder(c, root)})
    requires h'[n] == Fields(null, null, CtxId(c), red, v)
    requires h'[Holder(c, root)] == if c.InRight? then h[Holder(c, root)].(right := n)
      else h[Holder(c, root)].(left := n)
    ensures At(h', c, Node(Leaf, red, n, v, Leaf), root)
      && All(c, Node(Leaf, red, n, v, Leaf), root) == All(c, Leaf, root) + {n}
  {
    CtxMoved(h, h', c, null, n, root);
  }

  /** The node to hang something from is neither new nor the sentinel. */
  lemma HolderPlaces(h: Snapshot, c: Way, root: RBTreeNode)
    requires At(h, c, Leaf, root)
    ensures Holder(c, root) in All(c, Leaf, root) && CtxIds(c) + {root} == All(c, Leaf, root)
      && (!c.Top? ==> c.id != root)
  {
    CtxIn(c);
  }

  lemma SameSnap(nodes: set<RBTreeNode>, all: set<RBTreeNode>)
    requires nodes <= all
    ensures Agree(Snap(nodes), Snap(all), nodes)
  {
  }

  /** The new red node n gets its parent, and the parent its child. */
  lemma Hung(h: Snapshot, ha: Snapshot, c: Way, root: RBTreeNode, n: RBTreeNode, v: Value)
    requires At(h, c, Leaf, root) && n !in All(c, Leaf, root) && !c.Top? && Agree(h, ha, All(c, Leaf, root))
    requires h.Keys == All(c, Leaf, root) && n in ha && ha[n].(parent := null) == Fields(null, null, null, true, v)
    ensures c.id in h && c.id in ha && c.id != root && c.id != n && h[c.id].value == ha[c.id].value == c.val
    ensures All(c, Node(Leaf, true, n, v, Leaf), root) == All(c, Leaf, root) + {n}
    ensures c.InLeft? ==>
      At(ha[n := ha[n].(parent := c.id)][c.id := ha[c.id].(left := n)], c, Node(Leaf, true, n, v, Leaf), root)
    ensures c.InRight? ==>
      At(ha[n := ha[n].(parent := c.id)][c.id := ha[c.id].(right := n)], c, Node(Leaf, true, n, v, Leaf), root)
  {
    HolderPlaces(h, c, root);
    Links(h, c, Leaf, root);
    hide At, All;
    var h1 := ha[n := ha[n].(parent := c.id)];
    Attached(h, if c.InLeft? then h1[c.id := h1[c.id].(left := n)]
      else h1[c.id := h1[c.id].(right := n)], c, root, n, v, true);
  }

  lemma AllTop(h: Snapshot, t: Nodes, root: RBTreeNode)
    requires At(h, Top, t, root)
    ensures Ids(t) == All(Top, t, root) - {root}
  {
  }

  /** What adding a value makes of a tree; r is the value that was there before. */
  ghost predicate Added(t: Nodes, t': Nodes, v: Value, overrideMode: bool, r: Option) {
    && (r.None? <==> forall x :: x in Values(t) ==> x.key != v.key)
    && (r.Some? ==> r.value in Values(t) && r.value.key == v.key)
    && Values(t')
       == (if r.Some? && !overrideMode then Values(t) else Below(Values(t), v.key) + [v] + Above(Values(t), v.key))
    && |Values(t')| == |Values(t)| + (if r.None? then 1 else 0)
    && (RedBlackTree(t) ==> (RedBlackTree(t') <==> r.Some? || !MeetsBlackUncle(Descend(Top, t, v.key).0)))
  }

  /** What InsertValues, InsertKeeps and InsertRedBlack say, at the place where the way down ends. */
  lemma InsertFacts(t: Nodes, v: Value, id: RBTreeNode, overrideMode: bool, c: Way, n: Nodes, r: Option)
    requires Coloured(t) && (c, n) == Descend(Top, t, v.key) && r == if n.Node? then Some(n.val) else None
    ensures !IsRed(t) && (n.Leaf? && t.Node? ==> CtxRootBlack(c))
    ensures t.Leaf? ==> n.Leaf? && Insert(t, v, id, overrideMode) == Node(Leaf, false, id, v, Leaf)
    ensures n.Node? && overrideMode ==> Insert(t, v, id, overrideMode) == Plug(c, n.(val := v))
    ensures n.Node? && !overrideMode ==> Insert(t, v, id, overrideMode) == t
    ensures n.Leaf? && t.Node? ==>
      Insert(t, v, id, overrideMode) == RedBlack.FixInsert(c, Node(Leaf, true, id, v, Leaf))
    ensures |Values(Insert(t, v, id, overrideMode))| == |Values(t)| + if r.None? then 1 else 0
    ensures Coloured(Insert(t, v, id, overrideMode)) && Added(t, Insert(t, v, id, overrideMode), v, overrideMode, r)
  {
    hide NoRedRed, RedBlack.FixInsert, Height, Below, Above, Before, After;
    FindEnds(t, v.key);
    InsertValues(t, v, id, overrideMode);
    InsertKeeps(t, v, id, overrideMode);
    PlugRoot(c, n);
    if n.Leaf? {
      AbsentSplits(t, v.key);
    } else {
      FoundSplits(t, v.key);
    }
    if RedBlackTree(t) { InsertRedBlack(t, v, id, overrideMode); }
  }

  // ---------- removal ----------

  /** The place seen from the other child of the node above. */
  function Beside(c: Way, t: Nodes): Way
    requires !c.Top?
  {
    if c.InLeft? then InRight(c.red, c.id, c.val, t, c.up) else InLeft(c.red, c.id, c.val, t, c.up)
  }

  lemma Across(h: Snapshot, c: Way, t: Nodes, root: RBTreeNode)
    requires At(h, c, t, root) && !c.Top?
    ensures At(h, Beside(c, t), c.other, root) && All(Beside(c, t), c.other, root) == All(c, t, root)
  {
    Up(h, c, t, root);
    hide At, All;
    Down(h, c.up, Raise(c, t), root);
  }

  /** What fixRemove leaves. */
  type Repaired = RedBlack.Fixed<RBTreeNode>

  /** Where the loop of fixRemove stands: at t below c, or done but for the root's colour. */
  ghost predicate Mending(h: Snapshot, c: Way, t: Nodes, settled: bool, cur: RBTreeNode?, isRed: bool,
                          parent: RBTreeNode?,
                          goal: Repaired, nodes: set<RBTreeNode>, root: RBTreeNode) {
    && nodes == All(c, t, root) && At(h, c, t, root) && cur == RootId(t) && (c.Top? ==> t.Node?)
    && (!settled ==> parent == CtxId(c) && isRed == IsRed(t) && Loose(c, t) && RedBlack.FixRemove(c, t) == goal)
    && (settled ==> c.Top? && !isRed && goal == Done(BlackRoot(t)))
  }

  /** How far the loop of fixRemove still has to go. */
  function Rank(c: Way, t: Nodes): nat {
    if IsRed(t) then 0
    else 4 * Steps(c) + (if !c.Top? && IsRed(c.other) then 2 else 0) + (if FarRed(c) then 0 else 1)
  }

  /** One round of the loop of fixRemove. */
  lemma FixRemoveStep(c: Way, t: Nodes)
    requires Loose(c, t)
    ensures IsRed(t) ==> RedBlack.FixRemove(c, t) == Done(BlackRoot(Plug(c, t.(red := false))))
    ensures !IsRed(t) && c.Top? ==> RedBlack.FixRemove(c, t) == Done(BlackRoot(t))
    ensures !IsRed(t) && !c.Top? && c.other.Leaf? ==> RedBlack.FixRemove(c, t) == NoSibling(Plug(c, t))
    ensures !IsRed(t) && !c.Top? && IsRed(c.other) ==>
      && Loose(Sink(c), t) && RedBlack.FixRemove(c, t) == RedBlack.FixRemove(Sink(c), t)
      && Rank(Sink(c), t) < Rank(c, t)
    ensures !IsRed(t) && !c.Top? && c.other.Node? && !c.other.red && !NearRed(c) && !FarRed(c) ==>
      && Loose(c.up, Raise(WithOther(c, c.other.(red := true)), t))
      && RedBlack.FixRemove(c, t) == RedBlack.FixRemove(c.up, Raise(WithOther(c, c.other.(red := true)), t))
      && Rank(c.up, Raise(WithOther(c, c.other.(red := true)), t)) < Rank(c, t)
    ensures !IsRed(t) && !c.Top? && c.other.Node? && !c.other.red && NearRed(c) && !FarRed(c) ==>
      && Loose(NewSibling(c), t) && RedBlack.FixRemove(c, t) == RedBlack.FixRemove(NewSibling(c), t)
      && Rank(NewSibling(c), t) < Rank(c, t)
    ensures !IsRed(t) && !c.Top? && c.other.Node? && !c.other.red && FarRed(c) ==>
      RedBlack.FixRemove(c, t) == Done(BlackRoot(Plug(c.up, Settle(c, t))))
  {
    if !IsRed(t) && !c.Top? && c.other.Node? {
      if c.other.red {
        SinkStaysLoose(c, t);
      } else if !NearRed(c) && !FarRed(c) {
        ClimbStaysLoose(c, t);
      } else if !FarRed(c) {
        NewSiblingStaysLoose(c, t);
      }
    }
  }

  lemma MendLinks(h: Snapshot, c: Way, t: Nodes, settled: bool, cur: RBTreeNode?, isRed: bool, parent: RBTreeNode?,
                  goal: Repaired, nodes: set<RBTreeNode>, root: RBTreeNode)
    requires Mending(h, c, t, settled, cur, isRed, parent, goal, nodes, root)
    ensures nodes == All(c, t, root) && At(h, c, t, root) && root in h && h[root].left != null
    ensures c.Top? <==> h[root].left == cur && cur != null && cur in h && h[cur].parent == null
    ensures h[root].left == cur ==> cur in h
    ensures !isRed && !c.Top? ==> !settled && !IsRed(t) && parent != null && parent == c.id && cur == RootId(t)
    ensures isRed ==> !settled && t.Node? && cur == t.id && goal == Done(BlackRoot(Plug(c, t.(red := false))))
    ensures !isRed && c.Top? ==> t.Node? && goal == Done(BlackRoot(t))
  {
    hide At, All, RedBlack.FixRemove, Loose, Plug;
    RootBelow(h, c, t, root);
    Links(h, c, t, root);
    if !settled { FixRemoveStep(c, t); }
  }

  lemma MendGoesOn(h: Snapshot, c: Way, t: Nodes, goal: Repaired, nodes: set<RBTreeNode>, root: RBTreeNode)
    requires nodes == All(c, t, root) && At(h, c, t, root) && Loose(c, t) && RedBlack.FixRemove(c, t) == goal
      && (c.Top? ==> t.Node?)
    ensures Mending(h, c, t, false, RootId(t), IsRed(t), CtxId(c), goal, nodes, root)
  {
  }

  lemma MendRunning(h: Snapshot, c: Way, t: Nodes, settled: bool, cur: RBTreeNode?, isRed: bool, parent: RBTreeNode?,
                    goal: Repaired, nodes: set<RBTreeNode>, root: RBTreeNode)
    requires Mending(h, c, t, settled, cur, isRed, parent, goal, nodes, root) && !settled
    ensures Loose(c, t) && RedBlack.FixRemove(c, t) == goal
  {
  }

  lemma MendSettles(h: Snapshot, c: Way, t: Nodes, cur: RBTreeNode?, parent: RBTreeNode?, goal: Repaired,
                    nodes: set<RBTreeNode>, root: RBTreeNode)
    requires !c.Top? && FarRed(c) && goal == Done(BlackRoot(Plug(c.up, Settle(c, t))))
    requires nodes == All(Top, Plug(c.up, Settle(c, t)), root) && At(h, Top, Plug(c.up, Settle(c, t)), root)
    requires cur == RootId(Plug(c.up, Settle(c, t)))
    ensures Mending(h, Top, Plug(c.up, Settle(c, t)), true, cur, false, parent, goal, nodes, root)
  {
    PlugRoot(c.up, Settle(c, t));
  }

  lemma Nephews(h: Snapshot, c: Way, t: Nodes, root: RBTreeNode)
    requires At(h, c, t, root) && t.Node?
    ensures t.left.Node? ==> t.left.id in h && h[t.left.id].red == t.left.red
    ensures t.right.Node? ==> t.right.id in h && h[t.right.id].red == t.right.red
  {
    assert Rep(h, t.left, t.id) && Rep(h, t.right, t.id);
  }

  /** Case 4 after the sibling and the parent have their colours. */
  function SettlePainted(c: Way, t: Nodes): Nodes
    requires !c.Top? && c.other.Node?
  {
    if c.InLeft? then Node(t, false, c.id, c.val, c.other.(red := c.red))
      else Node(c.other.(red := c.red), false, c.id, c.val, t)
  }

  /** And after the far nephew has turned black. */
  function SettleFar(c: Way, t: Nodes): Nodes
    requires !c.Top? && FarRed(c)
  {
    if c.InLeft? then Node(t, false, c.id, c.val, c.other.(red := c.red, right := c.other.right.(red := false)))
    else Node(c.other.(red := c.red, left := c.other.left.(red := false)), false, c.id, c.val, t)
  }

  lemma SettleIs(c: Way, t: Nodes)
    requires !c.Top? && FarRed(c)
    ensures SettleFar(c, t).Node? && SettleFar(c, t).id == c.id
    ensures c.InLeft? ==> SettleFar(c, t).right.Node? && Settle(c, t) == RedBlack.RotateLeft(SettleFar(c, t))
    ensures c.InRight? ==> SettleFar(c, t).left.Node? && Settle(c, t) == RedBlack.RotateRight(SettleFar(c, t))
  {
  }

  /** The sibling in case 3 before it rotates. */
  function NearBlack(c: Way): Nodes
    requires !c.Top? && NearRed(c)
  {
    if c.InLeft? then c.other.(red := true, left := c.other.left.(red := false))
    else c.other.(red := true, right := c.other.right.(red := false))
  }

  lemma NewSiblingIs(c: Way, t: Nodes)
    requires !c.Top? && NearRed(c)
    ensures !Beside(c, t).Top? && Beside(c, t).other == t
    ensures c.InLeft? ==> NearBlack(c).left.Node?
    ensures c.InLeft? ==> Beside(Beside(c, t), RedBlack.RotateRight(NearBlack(c))) == NewSibling(c)
    ensures c.InRight? ==> NearBlack(c).right.Node?
    ensures c.InRight? ==> Beside(Beside(c, t), RedBlack.RotateLeft(NearBlack(c))) == NewSibling(c)
  {
  }

  lemma NephewColours(c: Way)
    requires !c.Top? && c.other.Node?
    ensures c.InLeft? ==> NearRed(c) == IsRed(c.other.left) && FarRed(c) == IsRed(c.other.right)
    ensures c.InRight? ==> NearRed(c) == IsRed(c.other.right) && FarRed(c) == IsRed(c.other.left)
  {
  }

  lemma SinkTop(c: Way)
    requires !c.Top? && c.other.Node?
    ensures !Sink(c).Top? && Sink(c).id == c.id
  {
  }

  lemma NewSiblingTop(c: Way)
    requires NearRed(c)
    ensures !NewSibling(c).Top? && NewSibling(c).id == c.id
  {
  }

  lemma RaisedAbove(c: Way, t: Nodes)
    requires !c.Top? && c.other.Node?
    ensures Raise(WithOther(c, c.other.(red := true)), t).id == c.id
      && Raise(WithOther(c, c.other.(red := true)), t).red == c.red
  {
  }

  lemma BlackenTop(c: Way, t: Nodes)
    ensures c.Top? ==> Plug(c, t) == t
  {
  }

  /** Below a context there is a root. */
  lemma RootBelow(h: Snapshot, c: Way, t: Nodes, root: RBTreeNode)
    requires At(h, c, t, root) && (!c.Top? || t.Node?)
    ensures root in h && h[root].left != null && (c.Top? <==> t.Node? && h[root].left == t.id && h[t.id].parent == null)
  {
    Links(h, c, t, root);
    PlugAt(h, c, t, root);
    PlugRoot(c, t);
    Links(h, Top, Plug(c, t), root);
  }

  /** t without its smallest node. */
  function MinLess(t: Nodes): Nodes
    requires t.Node?
  {
    if t.left.Leaf? then t.right else t.(left := MinLess(t.left))
  }

  /** The tree without its smallest node, seen from the top or from where that node was. */
  lemma {:induction false} MinPlace(h: Snapshot, c: Way, t: Nodes, root: RBTreeNode)
    requires t.Node?
    ensures At(h, LeftCtx(c, t), Leftmost(t).right, root) <==> At(h, c, MinLess(t), root)
    ensures At(h, c, MinLess(t), root) ==> All(LeftCtx(c, t), Leftmost(t).right, root) == All(c, MinLess(t), root)
    decreases t
  {
    if t.left.Node? {
      var c1 := InLeft(t.red, t.id, t.val, t.right, c);
      MinPlace(h, c1, t.left, root);
      if At(h, c1, MinLess(t.left), root) { Up(h, c1, MinLess(t.left), root); }
      if At(h, c, MinLess(t), root) { Down(h, c, MinLess(t), root); }
    }
  }

  /** The place below c in h holds k instead. */
  ghost function Spliced(h: Snapshot, c: Way, k: RBTreeNode?, root: RBTreeNode): Snapshot
    requires Holder(c, root) in h && (k != null && k in h ==> k != Holder(c, root))
  {
    var h1 := Linked(h, k, CtxId(c));
    if c.InRight? then h1[c.id := h1[c.id].(right := k)] else h1[Holder(c, root) := h1[Holder(c, root)].(left := k)]
  }

  lemma SplicedAt(h: Snapshot, c: Way, t: Nodes, k: Nodes, root: RBTreeNode)
    requires At(h, c, t, root) && t.Node? && ((k == t.left && t.right.Leaf?) || (k == t.right && t.left.Leaf?))
    ensures Holder(c, root) in h && (k.Node? ==> k.id in h && k.id != Holder(c, root))
    ensures At(Spliced(h, c, RootId(k), root), c, k, root) && All(c, k, root) == All(c, t, root) - {t.id}
    ensures t.id in Spliced(h, c, RootId(k), root) && Spliced(h, c, RootId(k), root)[t.id] == h[t.id]
  {
    SplicedPlaces(h, c, t, k, root);
    SplicedFields(h, c, RootId(k), root);
    var h' := Spliced(h, c, RootId(k), root);
    assert Rep(h', k, CtxId(c)) by {
      hide Spliced;
      RepMoved(h, h', k, t.id, CtxId(c));
    }
    assert RepCtx(h', c, RootId(k), root) by {
      hide Spliced;
      CtxMoved(h, h', c, t.id, RootId(k), root);
    }
  }

  lemma SplicedPlaces(h: Snapshot, c: Way, t: Nodes, k: Nodes, root: RBTreeNode)
    requires At(h, c, t, root) && t.Node? && ((k == t.left && t.right.Leaf?) || (k == t.right && t.left.Leaf?))
    ensures Holder(c, root) in h && t.id in h && (k.Node? ==> k.id in h && k.id != Holder(c, root) && k.id in Ids(k))
    ensures Distinct(k) && Rep(h, k, t.id) && Ids(k) <= Ids(t) - {t.id}
    ensures Holder(c, root) !in Ids(t) && t.id in Ids(t)
  {
    Links(h, c, t, root);
    CtxIn(c);
    RootIn(t);
    RootIn(k);
    assert Distinct(k) && Rep(h, k, t.id);
  }

  lemma SplicedFields(h: Snapshot, c: Way, k: RBTreeNode?, root: RBTreeNode)
    requires Holder(c, root) in h && (k != null ==> k in h && k != Holder(c, root))
    ensures Spliced(h, c, k, root).Keys == h.Keys
    ensures k != null ==> Spliced(h, c, k, root)[k] == h[k].(parent := CtxId(c))
    ensures Spliced(h, c, k, root)[Holder(c, root)]
      == if c.InRight? then h[Holder(c, root)].(right := k) else h[Holder(c, root)].(left := k)
    ensures forall o :: o in h && o != Holder(c, root) && o != k ==> Spliced(h, c, k, root)[o] == h[o]
  {
  }

  lemma AtKept(h: Snapshot, h': Snapshot, c: Way, t: Nodes, root: RBTreeNode)
    requires At(h, c, t, root) && Agree(h, h', All(c, t, root))
    ensures At(h', c, t, root)
  {
    RepKept(h, h', t, CtxId(c));
    CtxKept(h, h', c, RootId(t), root);
  }

  lemma SplicedCommutes(h: Snapshot, c: Way, k: RBTreeNode?, root: RBTreeNode)
    requires c.InLeft? && c.id in h && (k != null ==> k in h && k != c.id)
    ensures Spliced(h, c, k, root) == Linked(h[c.id := h[c.id].(left := k)], k, c.id)
  {
  }

  lemma NotAbove(h: Snapshot, c: Way, t: Nodes, root: RBTreeNode)
    requires At(h, c, t, root) && !c.Top? && t.Node?
    ensures c.id != t.id && c.id != root
  {
  }

  lemma {:induction false} MinLessIds(t: Nodes)
    requires t.Node? && Distinct(t)
    ensures Distinct(MinLess(t)) && Ids(MinLess(t)) == Ids(t) - {Leftmost(t).id} && Leftmost(t).id in Ids(t)
  {
    if t.left.Node? { MinLessIds(t.left); }
  }

  /** The tree at n with the smallest node m of its right subtree in the place of n. */
  function Succeeded(n: Nodes): Nodes
    requires n.Node? && n.right.Node?
  {
    Node(n.left, n.red, Leftmost(n.right).id, Leftmost(n.right).val, MinLess(n.right))
  }

  lemma SucceededApart(c: Way, n: Nodes, root: RBTreeNode)
    requires Apart(c, n, root) && n.Node? && n.right.Node?
    ensures Apart(c, Succeeded(n), root) && All(c, Succeeded(n), root) == All(c, n, root) - {n.id}
  {
    MinLessIds(n.right);
  }

  /** m takes the place of x below parent, which may be the sentinel. */
  ghost function HungBelow(h: Snapshot, x: RBTreeNode, m: RBTreeNode, parent: RBTreeNode, root: RBTreeNode): Snapshot
    requires m in h && parent in h
  {
    var h1 := if h[parent].left == x then h[parent := h[parent].(left := m)] else h[parent := h[parent].(right := m)];
    h1[m := h1[m].(parent := if parent == root then null else parent)]
  }

  /** What remove stores when m takes the place of the removed node x; l and r were its children. */
  ghost function TookPlace(h: Snapshot, x: RBTreeNode, m: RBTreeNode, l: RBTreeNode?, r: RBTreeNode?, inner: bool,
                           red: bool,
                           c: Way, root: RBTreeNode): Snapshot
    requires m in h && Holder(c, root) in h
  {
    var h3 := HungBelow(Linked(h[m := h[m].(left := l)], l, m), x, m, Holder(c, root), root);
    var h4 := Reddened(h3, m, red);
    if inner then Linked(h4[m := h4[m].(right := r)], r, m) else h4
  }

  lemma TookPlaceFields(h: Snapshot, x: RBTreeNode, m: RBTreeNode, l: RBTreeNode?, r: RBTreeNode?, inner: bool,
                        red: bool,
                        c: Way, root: RBTreeNode)
    requires m in h && Holder(c, root) in h && (l != null ==> l in h) && (r != null ==> r in h)
    requires m !in {l, r, Holder(c, root)} && Holder(c, root) !in {l, r} && (l == null || l != r)
      && (!inner ==> h[m].right == r)
    requires (h[Holder(c, root)].left == x <==> !c.InRight?) && (!c.Top? ==> c.id != root)
    ensures TookPlace(h, x, m, l, r, inner, red, c, root).Keys == h.Keys
    ensures TookPlace(h, x, m, l, r, inner, red, c, root)[m] == Fields(l, r, CtxId(c), red, h[m].value)
    ensures l != null ==> TookPlace(h, x, m, l, r, inner, red, c, root)[l] == h[l].(parent := m)
    ensures r != null ==> TookPlace(h, x, m, l, r, inner, red, c, root)[r] == if inner then h[r].(parent := m) else h[r]
    ensures TookPlace(h, x, m, l, r, inner, red, c, root)[Holder(c, root)]
      == if c.InRight? then h[Holder(c, root)].(right := m) else h[Holder(c, root)].(left := m)
    ensures forall o :: o in h && o !in {m, Holder(c, root)} && o != l && o != r ==>
      TookPlace(h, x, m, l, r, inner, red, c, root)[o] == h[o]
  {
    hide HungBelow;
    HungFields(h, x, m, l, c, root);
  }

  /** Field by field, after m was hung below x's parent with l as its left child. */
  lemma HungFields(h: Snapshot, x: RBTreeNode, m: RBTreeNode, l: RBTreeNode?, c: Way, root: RBTreeNode)
    requires m in h && Holder(c, root) in h && (l != null ==> l in h) && m !in {l, Holder(c, root)}
      && Holder(c, root) != l
    requires (h[Holder(c, root)].left == x <==> !c.InRight?) && (!c.Top? ==> c.id != root)
    ensures m in Linked(h[m := h[m].(left := l)], l, m) && Holder(c, root) in Linked(h[m := h[m].(left := l)], l, m)
    ensures HungBelow(Linked(h[m := h[m].(left := l)], l, m), x, m, Holder(c, root), root).Keys == h.Keys
    ensures HungBelow(Linked(h[m := h[m].(left := l)], l, m), x, m, Holder(c, root), root)[m]
      == h[m].(left := l, parent := CtxId(c))
    ensures l != null ==>
      HungBelow(Linked(h[m := h[m].(left := l)], l, m), x, m, Holder(c, root), root)[l] == h[l].(parent := m)
    ensures HungBelow(Linked(h[m := h[m].(left := l)], l, m), x, m, Holder(c, root), root)[Holder(c, root)]
      == if c.InRight? then h[Holder(c, root)].(right := m) else h[Holder(c, root)].(left := m)
    ensures forall o :: o in h && o !in {m, Holder(c, root)} && o != l ==>
      HungBelow(Linked(h[m := h[m].(left := l)], l, m), x, m, Holder(c, root), root)[o] == h[o]
  {
  }

  lemma TookPlaceSteps(h: Snapshot, h1: Snapshot, h3: Snapshot, h4: Snapshot, x: RBTreeNode, m: RBTreeNode,
                       l: RBTreeNode?,
                       r: RBTreeNode?, inner: bool, red: bool, c: Way, root: RBTreeNode)
    requires m in h && Holder(c, root) in h && x in h && x !in {m, Holder(c, root)} && x != l
    requires h1 == Linked(h[m := h[m].(left := l)], l, m) && Holder(c, root) in h1
    requires h3 == HungBelow(h1, x, m, Holder(c, root), root) && h4 == Reddened(h3, m, red)
    ensures x in h3 && h3[x] == h[x] && x in h4 && h4[x] == h[x] && m in h4
    ensures TookPlace(h, x, m, l, r, inner, red, c, root) == if inner
      then Linked(h4[m := h4[m].(right := r)], r, m) else h4
  {
  }

  /** The nodes l and r hang below x, or r below m already; m is to take x's place. */
  ghost predicate CanTake(h: Snapshot, c: Way, l: Nodes, r: Nodes, x: RBTreeNode, m: RBTreeNode, inner: bool, red: bool,
                          v: Value,
                          root: RBTreeNode) {
    && Apart(c, Node(l, red, m, v, r), root) && RepCtx(h, c, x, root)
    && Rep(h, l, x) && Rep(h, r, if inner then x else m)
    && Holder(c, root) in h && m in h && h[m].value == v && (!inner ==> h[m].right == RootId(r))
    && (h[Holder(c, root)].left == x <==> !c.InRight?) && (!c.Top? ==> c.id != root)
  }

  lemma TookPlaceAt(h: Snapshot, c: Way, l: Nodes, r: Nodes, x: RBTreeNode, m: RBTreeNode, inner: bool, red: bool,
                    v: Value, root: RBTreeNode)
    requires CanTake(h, c, l, r, x, m, inner, red, v, root)
    ensures At(TookPlace(h, x, m, RootId(l), RootId(r), inner, red, c, root), c, Node(l, red, m, v, r), root)
  {
    hide TookPlace, Ids, CtxIds, Distinct, CtxDistinct;
    TookFields(h, c, l, r, x, m, inner, red, v, root);
    TookLeft(h, c, l, r, x, m, inner, red, v, root);
    TookRight(h, c, l, r, x, m, inner, red, v, root);
    TookCtx(h, c, l, r, x, m, inner, red, v, root);
  }

  lemma TookFields(h: Snapshot, c: Way, l: Nodes, r: Nodes, x: RBTreeNode, m: RBTreeNode, inner: bool, red: bool,
                   v: Value, root: RBTreeNode)
    requires CanTake(h, c, l, r, x, m, inner, red, v, root)
    ensures m in h && TookPlace(h, x, m, RootId(l), RootId(r), inner, red, c, root).Keys == h.Keys
    ensures TookPlace(h, x, m, RootId(l), RootId(r), inner, red, c, root)[m]
      == Fields(RootId(l), RootId(r), CtxId(c), red, v)
    ensures l.Node? ==>
      l.id in h && TookPlace(h, x, m, RootId(l), RootId(r), inner, red, c, root)[l.id] == h[l.id].(parent := m)
    ensures r.Node? ==>
      r.id in h && TookPlace(h, x, m, RootId(l), RootId(r), inner, red, c, root)[r.id] == h[r.id].(parent := m)
    ensures TookPlace(h, x, m, RootId(l), RootId(r), inner, red, c, root)[Holder(c, root)]
      == if c.InRight? then h[Holder(c, root)].(right := m) else h[Holder(c, root)].(left := m)
    ensures forall o :: o in h && o !in {m, Holder(c, root)} && o != RootId(l) && o != RootId(r) ==>
      TookPlace(h, x, m, RootId(l), RootId(r), inner, red, c, root)[o] == h[o]
  {
    hide TookPlace;
    CtxIn(c);
    RootIn(l);
    RootIn(r);
    TookPlaceFields(h, x, m, RootId(l), RootId(r), inner, red, c, root);
  }

  lemma TookLeft(h: Snapshot, c: Way, l: Nodes, r: Nodes, x: RBTreeNode, m: RBTreeNode, inner: bool, red: bool,
                 v: Value, root: RBTreeNode)
    requires CanTake(h, c, l, r, x, m, inner, red, v, root)
    ensures Rep(TookPlace(h, x, m, RootId(l), RootId(r), inner, red, c, root), l, m)
  {
    hide TookPlace, RepCtx, CtxDistinct;
    TookFields(h, c, l, r, x, m, inner, red, v, root);
    CtxIn(c);
    RootIn(r);
    RepMoved(h, TookPlace(h, x, m, RootId(l), RootId(r), inner, red, c, root), l, x, m);
  }

  lemma TookRight(h: Snapshot, c: Way, l: Nodes, r: Nodes, x: RBTreeNode, m: RBTreeNode, inner: bool, red: bool,
                  v: Value, root: RBTreeNode)
    requires CanTake(h, c, l, r, x, m, inner, red, v, root)
    ensures Rep(TookPlace(h, x, m, RootId(l), RootId(r), inner, red, c, root), r, m)
  {
    hide TookPlace, RepCtx, CtxDistinct;
    TookFields(h, c, l, r, x, m, inner, red, v, root);
    CtxIn(c);
    RootIn(l);
    RepMoved(h, TookPlace(h, x, m, RootId(l), RootId(r), inner, red, c, root), r, if inner then x else m, m);
  }

  lemma TookCtx(h: Snapshot, c: Way, l: Nodes, r: Nodes, x: RBTreeNode, m: RBTreeNode, inner: bool, red: bool, v: Value,
                root: RBTreeNode)
    requires CanTake(h, c, l, r, x, m, inner, red, v, root)
    ensures RepCtx(TookPlace(h, x, m, RootId(l), RootId(r), inner, red, c, root), c, m, root)
  {
    hide TookPlace, Distinct, Rep;
    TookFields(h, c, l, r, x, m, inner, red, v, root);
    RootIn(l);
    RootIn(r);
    CtxMoved(h, TookPlace(h, x, m, RootId(l), RootId(r), inner, red, c, root), c, x, m, root);
  }

  /** What remove reads after removeMin. */
  lemma PlaceLinks(h: Snapshot, h1: Snapshot, c: Way, n: Nodes, root: RBTreeNode)
    requires At(h, c, n, root) && n.Node? && n.right.Node? && Leftmost(n.right).id in h1
    requires n.right.left.Leaf? ==> h1 == h
    requires n.right.left.Node? ==> At(h1, LeftCtx(RightOf(c, n), n.right), Leftmost(n.right).right, root)
    ensures n.id in h1 && h1[n.id].left == RootId(n.left) && h1[n.id].right == n.right.id && h1[n.id].red == n.red
    ensures Leftmost(n.right).id == n.right.id <==> n.right.left.Leaf?
    ensures Holder(c, root) in h1 && (h1[Holder(c, root)].left == n.id <==> !c.InRight?) && (!c.Top? ==> c.id != root)
    ensures n.left.Node? ==> n.left.id in h1
    ensures n.right.id in h1 && (n.right.left.Node? ==> MinLess(n.right).Node? && MinLess(n.right).id == n.right.id)
    ensures n.id !in {Leftmost(n.right).id, n.right.id, Holder(c, root)} && n.id != RootId(n.left)
    ensures Holder(c, root) !in {Leftmost(n.right).id, n.right.id} && Holder(c, root) != RootId(n.left)
    ensures Leftmost(n.right).id != RootId(n.left) && Leftmost(n.right).id != root
  {
    MinLessIds(n.right);
    CtxIn(c);
    RootIn(n.left);
    RootIn(n.right);
    if !c.Top? { RootIn(c.other); }
    var n1 := n.(right := MinLess(n.right));
    if n.right.left.Leaf? {
      assert Rep(h1, n.left, n.id) && Rep(h1, n.right, n.id);
      Links(h1, c, n, root);
    } else {
      MinPlace(h1, RightOf(c, n), n.right, root);
      Up(h1, RightOf(c, n), MinLess(n.right), root);
      assert At(h1, c, n1, root);
      assert Rep(h1, n1.left, n.id) && Rep(h1, n1.right, n.id);
      Links(h1, c, n1, root);
    }
  }

  /** h1 is the heap after removeMin. */
  lemma SuccessorAt(h: Snapshot, h1: Snapshot, c: Way, n: Nodes, root: RBTreeNode)
    requires At(h, c, n, root) && n.Node? && n.right.Node? && Leftmost(n.right).id in h1
    requires h1[Leftmost(n.right).id].value == Leftmost(n.right).val
    requires n.right.left.Leaf? ==> h1 == h
    requires n.right.left.Node? ==> At(h1, LeftCtx(RightOf(c, n), n.right), Leftmost(n.right).right, root)
    ensures Holder(c, root) in h1
      && (n.right.left.Node? ==> MinLess(n.right).Node? && MinLess(n.right).id == n.right.id)
    ensures At(TookPlace(h1, n.id, Leftmost(n.right).id, RootId(n.left), RootId(MinLess(n.right)), n.right.left.Node?,
      n.red, c, root),
               c, Succeeded(n), root)
  {
    SucceededApart(c, n, root);
    var m, n1 := Leftmost(n.right), n.(right := MinLess(n.right));
    if n.right.left.Leaf? {
      assert Rep(h1, n.right, n.id);
    } else {
      MinPlace(h1, RightOf(c, n), n.right, root);
      Up(h1, RightOf(c, n), MinLess(n.right), root);
      assert At(h1, c, n1, root);
    }
    PlaceLinks(h, h1, c, n, root);
    TookPlaceAt(h1, c, n.left, MinLess(n.right), n.id, m.id, n.right.left.Node?, n.red, m.val, root);
  }

  /** Seen from where the smallest node was. */
  lemma SucceededAt(h: Snapshot, c: Way, n: Nodes, root: RBTreeNode)
    requires n.Node? && n.right.Node? && At(h, c, Succeeded(n), root)
    ensures At(h, Successor(c, n), Leftmost(n.right).right, root)
    ensures All(Successor(c, n), Leftmost(n.right).right, root) == All(c, Succeeded(n), root)
    ensures CtxId(Successor(c, n)) == if n.right.left.Leaf? then Leftmost(n.right).id
      else CtxId(LeftCtx(RightOf(c, n), n.right))
    ensures !Successor(c, n).Top?
  {
    Down(h, c, Succeeded(n), root);
    MinPlace(h, RightOf(c, Succeeded(n)), n.right, root);
    if n.right.left.Node? {
      SameEnd(RightOf(c, Succeeded(n)), RightOf(c, n), n.right);
    }
  }

  lemma MinDeeper(t: Nodes)
    requires t.Node? && Distinct(t)
    ensures Leftmost(t).id == t.id <==> t.left.Leaf?
  {
    if t.left.Node? { MinLessIds(t.left); }
  }

  /** The smallest node keeps the parent it had. */
  lemma MinParent(h: Snapshot, h1: Snapshot, c: Way, n: Nodes, root: RBTreeNode)
    requires At(h, c, n, root) && n.Node? && n.right.Node? && Leftmost(n.right).id in h1
    requires n.right.left.Leaf? ==> h1 == h
    requires n.right.left.Node? ==> At(h1, LeftCtx(RightOf(c, n), n.right), Leftmost(n.right).right, root)
    ensures n.right.left.Leaf? ==> h1[Leftmost(n.right).id].parent == n.id
    ensures n.right.left.Node? ==> CtxId(LeftCtx(RightOf(c, n), n.right)) != null
  {
    assert Rep(h, n.right, n.id);
    if n.right.left.Node? { SameEnd(RightOf(c, n), RightOf(c, n), n.right); }
  }

  /** After the successor took the place of n. */
  lemma InPlace(h0: Snapshot, h: Snapshot, h': Snapshot, c: Way, n: Nodes, root: RBTreeNode)
    requires n.Node? && n.right.Node? && At(h0, c, n, root) && At(h, c, Succeeded(n), root)
    requires Agree(h, h', All(c, n, root) - {n.id})
    ensures At(h', Successor(c, n), Leftmost(n.right).right, root)
    ensures All(Successor(c, n), Leftmost(n.right).right, root) == All(c, n, root) - {n.id}
    ensures CtxId(Successor(c, n)) == if n.right.left.Leaf? then Leftmost(n.right).id
      else CtxId(LeftCtx(RightOf(c, n), n.right))
    ensures !Successor(c, n).Top?
    ensures n.right.left.Leaf? ==> n.right.id in h && h[n.right.id].right == RootId(Leftmost(n.right).right)
    ensures Leftmost(n.right).id == n.right.id <==> n.right.left.Leaf?
  {
    SucceededApart(c, n, root);
    SucceededAt(h, c, n, root);
    Links(h, c, Succeeded(n), root);
    AtKept(h, h', Successor(c, n), Leftmost(n.right).right, root);
    MinDeeper(n.right);
  }

  lemma CutFacts(h: Snapshot, c: Way, n: Nodes, root: RBTreeNode)
    requires At(h, c, n, root) && n.Node? && n.right.Leaf?
    ensures Holder(c, root) in h && n.id in h && (n.left.Node? ==> n.left.id in h && n.left.id != Holder(c, root))
    ensures At(Spliced(h, c, RootId(n.left), root), c, n.left, root) && All(c, n.left, root) == All(c, n, root) - {n.id}
    ensures n.id in Spliced(h, c, RootId(n.left), root) && Spliced(h, c, RootId(n.left), root)[n.id] == h[n.id]
    ensures Spliced(h, c, RootId(n.left), root) ==
      if Linked(h, RootId(n.left), CtxId(c))[Holder(c, root)].left == n.id
      then Linked(h, RootId(n.left), CtxId(c))[Holder(c, root) :=
             Linked(h, RootId(n.left), CtxId(c))[Holder(c, root)].(left := RootId(n.left))]
      else Linked(h, RootId(n.left), CtxId(c))[Holder(c, root) :=
             Linked(h, RootId(n.left), CtxId(c))[Holder(c, root)].(right := RootId(n.left))]
    ensures !c.Top? ==> c.id != root
  {
    SplicedAt(h, c, n, n.left, root);
    Links(h, c, n, root);
    CtxIn(c);
    if !c.Top? { RootIn(c.other); }
    hide Spliced, At, All;
    assert Linked(h, RootId(n.left), CtxId(c))[Holder(c, root)] == h[Holder(c, root)];
  }

  lemma {:induction false} SameEnd(c: Way, c': Way, t: Nodes)
    requires t.Node? && t.left.Node?
    ensures LeftCtx(c, t).InLeft? && CtxId(LeftCtx(c, t)) == CtxId(LeftCtx(c', t))
    decreases t
  {
    if t.left.left.Node? {
      SameEnd(InLeft(t.red, t.id, t.val, t.right, c), InLeft(t.red, t.id, t.val, t.right, c'), t.left);
    }
  }

  /** What RedBlack.Remove does at the node the way down ends at. */
  lemma RemoveCases(t: Nodes, k: int, c: Way, n: Nodes)
    requires Coloured(t) && (c, n) == Descend(Top, t, k) && n.Node?
    ensures n.right.Leaf? && n.red ==> RedBlack.Remove(t, k) == Done(BlackRoot(Plug(c, n.left)))
    ensures n.right.Leaf? && !n.red ==> Loose(c, n.left) && RedBlack.Remove(t, k) == RedBlack.FixRemove(c, n.left)
    ensures n.right.Leaf? && c.Top? && n.left.Leaf? ==> RedBlack.Remove(t, k) == Done(BlackRoot(Plug(c, n.left)))
    ensures n.right.Node? && Leftmost(n.right).red ==>
      RedBlack.Remove(t, k) == Done(BlackRoot(Plug(Successor(c, n), Leftmost(n.right).right)))
    ensures n.right.Node? && !Leftmost(n.right).red ==>
      && Loose(Successor(c, n), Leftmost(n.right).right)
      && RedBlack.Remove(t, k) == RedBlack.FixRemove(Successor(c, n), Leftmost(n.right).right)
    ensures RedBlack.Remove(t, k).tree == BlackRoot(RedBlack.Remove(t, k).tree)
  {
    RemovableAt(t, k);
    PlaceRules(c, n);
    RemoveIs(t, k);
    hide RedBlack.FixRemove, Loose, Leftmost, Successor, Removable, Coloured;
    BlackAlready(t, k);
    if n.right.Leaf? && !n.red { FixRemoveStep(c, n.left); }
  }

  lemma BlackAlready(t: Nodes, k: int)
    requires Coloured(t) && Coloured(RedBlack.Remove(t, k).tree)
    ensures RedBlack.Remove(t, k).tree == BlackRoot(RedBlack.Remove(t, k).tree)
  {
  }

  lemma RemoveFacts(t: Nodes, k: int)
    requires Coloured(t)
    ensures Coloured(RedBlack.Remove(t, k).tree) && (RedBlack.Remove(t, k).NoSibling? <==> RemoveFails(t, k))
    ensures RedBlackTree(t) ==> !RemoveFails(t, k) && RedBlackTree(RedBlack.Remove(t, k).tree)
    ensures Values(RedBlack.Remove(t, k).tree) == Below(Values(t), k) + Above(Values(t), k)
    ensures Descend(Top, t, k).1.Leaf? ==> RedBlack.Remove(t, k) == Done(t)
    ensures |Values(RedBlack.Remove(t, k).tree)| == |Values(t)| - if Descend(Top, t, k).1.Node? then 1 else 0
    ensures Descend(Top, t, k).1.Leaf? <==> forall x :: x in Values(t) ==> x.key != k
    ensures Descend(Top, t, k).1.Node? ==> Descend(Top, t, k).1.val in Values(t) && Descend(Top, t, k).1.val.key == k
  {
    FindEnds(t, k);
    RemoveIs(t, k);
    if RedBlackTree(t) { RemoveRedBlack(t, k); }
    hide Below, Above, RedBlack.FixRemove, Before, After;
    if Descend(Top, t, k).1.Node? { FoundSplits(t, k); }
  }

  lemma DescendStep(c: Way, t: Nodes, k: int)
    ensures t.Leaf? || t.val.key == k ==> Descend(c, t, k) == (c, t)
    ensures t.Node? && k < t.val.key ==> Descend(c, t, k) == Descend(LeftOf(c, t), t.left, k)
    ensures t.Node? && k > t.val.key ==> Descend(c, t, k) == Descend(RightOf(c, t), t.right, k)
  {
  }

  /** What remove comes back with: a value or null, or the exception for a null sibling. */
  datatype Removed = Throws | Returned(value: Option)

  class RBTree {
    const root: RBTreeNode
    var size: nat
    var overrideMode: bool
    ghost var tree: Nodes
    ghost var failures: nat

    constructor (overrideMode: bool)
      ensures Valid() && tree == Leaf && failures == 0 && this.overrideMode == overrideMode && fresh(root)
    {
      root := new RBTreeNode(Value(0, 0));
      size, this.overrideMode := 0, overrideMode;
      tree, failures := Leaf, 0;
    }

    /** The nodes form an ordered tree with a black root and no red node below a red node. */
    ghost predicate InOrder()
      reads this, root, Ids(tree)
    {
      At(Snap(All(Top, tree, root)), Top, tree, root) && Coloured(tree)
    }

    /** A removal that throws has taken its value out but not counted size down. */
    ghost predicate Valid()
      reads this, root, Ids(tree)
    {
      InOrder() && size == |Values(tree)| + failures
    }

    method Find(k: int) returns (r: Option)
      requires Valid()
      ensures r.Some? ==> r.value in Values(tree) && r.value.key == k
      ensures r.None? ==> forall x :: x in Values(tree) ==> x.key != k
    {
      hide At, All, Plug, NoRedRed, Sorted, Values;
      ghost var nodes := All(Top, tree, root);
      Links(Snap(nodes), Top, tree, root);
      var dataRoot := root.left;
      ghost var c, t := Top, tree;
      FindEnds(tree, k);
      while dataRoot != null
        invariant nodes == All(c, t, root) && At(Snap(nodes), c, t, root) && dataRoot == RootId(t)
        invariant Descend(c, t, k) == Descend(Top, tree, k)
        decreases t
      {
        Links(Snap(nodes), c, t, root);
        Down(Snap(nodes), c, t, root);
        if dataRoot.value.key < k {
          dataRoot := dataRoot.right;
          c, t := RightOf(c, t), t.right;
        } else if dataRoot.value.key > k {
          dataRoot := dataRoot.left;
          c, t := LeftOf(c, t), t.left;
        } else {
          return Some(dataRoot.value);
        }
      }
      return None;
    }

    /** The node with the key, or the node to hang a new one from. */
    method FindParentNode(k: int, ghost nodes: set<RBTreeNode>)
      returns (dataRoot: RBTreeNode, ghost c: Way, ghost t: Nodes)
      requires nodes == All(Top, tree, root) && At(Snap(nodes), Top, tree, root) && tree.Node?
      ensures nodes == All(c, t, root) && At(Snap(nodes), c, t, root) && (c, t) == Descend(Top, tree, k)
      ensures Descend(Top, tree, k).1.Node? ==> dataRoot == Descend(Top, tree, k).1.id
      ensures Descend(Top, tree, k).1.Leaf? ==> !Descend(Top, tree, k).0.Top? && dataRoot == Descend(Top, tree, k).0.id
      ensures t.Leaf? ==> !c.Top? && (c.InLeft? <==> k < c.val.key) && c.val.key != k && dataRoot.value == c.val
      ensures t.Node? ==> dataRoot.value == t.val
    {
      hide At, All, Plug;
      Links(Snap(nodes), Top, tree, root);
      dataRoot := root.left;
      var child: RBTreeNode? := dataRoot;
      c, t := Top, tree;
      while child != null
        invariant nodes == All(c, t, root) && At(Snap(nodes), c, t, root) && child == RootId(t)
        invariant Descend(c, t, k) == Descend(Top, tree, k)
        invariant t.Leaf? ==> !c.Top?
        invariant !c.Top? ==>
          dataRoot == c.id && (c.InLeft? <==> k < c.val.key) && c.val.key != k && dataRoot.value == c.val
        decreases t
      {
        Links(Snap(nodes), c, t, root);
        Down(Snap(nodes), c, t, root);
        if child.value.key == k { return child, c, t; }
        dataRoot := child;
        if child.value.key > k {
          child := child.left;
          c, t := LeftOf(c, t), t.left;
        } else {
          child := child.right;
          c, t := RightOf(c, t), t.right;
        }
      }
    }

    /** Links node to its parent; the sentinel counts as no parent. */
    method SetParent(node: RBTreeNode?, parent: RBTreeNode?, ghost nodes: set<RBTreeNode>)
      requires node != null ==> node in nodes
      modifies (if node == null then {} else {node})`parent
      ensures Snap(nodes) == Linked(old(Snap(nodes)), node, if parent == root then null else parent)
    {
      if node != null {
        node.SetParent(parent, nodes);
        if parent == root { node.SetParent(null, nodes); }
      }
    }

    /** The last steps of both rotations: child takes the place of node below parent. */
    method Replace(parent: RBTreeNode?, node: RBTreeNode, child: RBTreeNode, ghost nodes: set<RBTreeNode>)
      requires root in nodes && node in nodes && child in nodes
        && (parent != null ==> parent in nodes && parent != root)
      modifies nodes
      ensures Snap(nodes) == Replaced(old(Snap(nodes)), node, child, parent, root)
    {
      hide Snap;
      if parent == null {
        root.SetLeft(child, nodes);
        SetParent(child, null, nodes);
      } else {
        if parent.left == node {
          parent.SetLeft(child, nodes);
        } else {
          parent.SetRight(child, nodes);
        }
        SetParent(child, parent, nodes);
      }
    }

    method RotateLeft(node: RBTreeNode, ghost c: Way, ghost t: Nodes, ghost nodes: set<RBTreeNode>)
      requires t.Node? && t.right.Node? && t.id == node && nodes == All(c, t, root)
      requires At(Snap(nodes), c, t, root)
      modifies nodes
      ensures At(Snap(nodes), c, RedBlack.RotateLeft(t), root) && nodes == All(c, RedBlack.RotateLeft(t), root)
    {
      hide At, Apart, Ids, CtxIds, Rep, RepCtx, Snap, RedBlack.RotateLeft, RedBlack.RotateRight, Replaced, ShiftedLeft;
      AtApart(Snap(nodes), c, t, root);
      LeftRotated(Snap(nodes), c, t, root);
      RotateLeftApart(c, t, root);
      var right := node.right;
      var parent := node.parent;
      ShiftLeft(node, right, nodes);
      Replace(parent, node, right, nodes);
    }

    method ShiftLeft(node: RBTreeNode, right: RBTreeNode, ghost nodes: set<RBTreeNode>)
      requires node in nodes && right in nodes && node != root && right != root
        && (right.left != null ==> right.left in nodes)
      modifies nodes
      ensures Snap(nodes) == ShiftedLeft(old(Snap(nodes)), node, right, old(right.left))
    {
      hide Snap, Linked;
      node.SetRight(right.left, nodes);
      SetParent(right.left, node, nodes);
      right.SetLeft(node, nodes);
      SetParent(node, right, nodes);
      LinkedIs(node, right);
    }

    method RotateRight(node: RBTreeNode, ghost c: Way, ghost t: Nodes, ghost nodes: set<RBTreeNode>)
      requires t.Node? && t.left.Node? && t.id == node && nodes == All(c, t, root)
      requires At(Snap(nodes), c, t, root)
      modifies nodes
      ensures At(Snap(nodes), c, RedBlack.RotateRight(t), root) && nodes == All(c, RedBlack.RotateRight(t), root)
    {
      hide At, Apart, Ids, CtxIds, Rep, RepCtx, Snap, RedBlack.RotateLeft, RedBlack.RotateRight, Replaced, ShiftedRight;
      AtApart(Snap(nodes), c, t, root);
      RightRotated(Snap(nodes), c, t, root);
      RotateRightIds(t);
      var left := node.left;
      var parent := node.parent;
      ShiftRight(node, left, nodes);
      Replace(parent, node, left, nodes);
    }

    method ShiftRight(node: RBTreeNode, left: RBTreeNode, ghost nodes: set<RBTreeNode>)
      requires node in nodes && left in nodes && node != root && left != root
        && (left.right != null ==> left.right in nodes)
      modifies nodes
      ensures Snap(nodes) == ShiftedRight(old(Snap(nodes)), node, left, old(left.right))
    {
      hide Snap, Linked;
      node.SetLeft(left.right, nodes);
      SetParent(left.right, node, nodes);
      left.SetRight(node, nodes);
      SetParent(node, left, nodes);
      LinkedIs(node, left);
    }

    method GetUncle(node: RBTreeNode, ghost c: Way, ghost t: Nodes, ghost nodes: set<RBTreeNode>)
      returns (uncle: RBTreeNode?)
      requires nodes == All(c, t, root) && At(Snap(nodes), c, t, root) && t.Node? && t.id == node && !c.Top?
      ensures uncle == if c.up.Top? then null else RootId(c.up.other)
    {
      Links(Snap(nodes), c, t, root);
      Up(Snap(nodes), c, t, root);
      Links(Snap(nodes), c.up, Raise(c, t), root);
      hide At, All;
      var parent := node.parent;
      var ancestor := parent.parent;
      if ancestor == null { return null; }
      if parent == ancestor.left {
        return ancestor.right;
      } else {
        return ancestor.left;
      }
    }

    /** Rotates the left child `top` of the ancestor into its place, black, the ancestor red. */
    method LiftLeftChild(ancestor: RBTreeNode, top: RBTreeNode, ghost c: Way, ghost t: Nodes,
                         ghost nodes: set<RBTreeNode>)
      requires nodes == All(c, t, root) && At(Snap(nodes), c, t, root)
      requires t.Node? && t.left.Node? && t.id == ancestor && t.left.id == top
      modifies nodes
      ensures nodes == All(c, Lifted(RedBlack.RotateRight(t)), root)
        && At(Snap(nodes), c, Lifted(RedBlack.RotateRight(t)), root)
    {
      hide At, All;
      RotateRight(ancestor, c, t, nodes);
      ghost var g := RedBlack.RotateRight(t);
      Paint(Snap(nodes), c, g, root, false);
      top.SetRed(false, nodes);
      g := g.(red := false);
      Down(Snap(nodes), c, g, root);
      Paint(Snap(nodes), RightOf(c, g), g.right, root, true);
      ancestor.SetRed(true, nodes);
      Up(Snap(nodes), RightOf(c, g), g.right.(red := true), root);
    }

    method LiftRightChild(ancestor: RBTreeNode, top: RBTreeNode, ghost c: Way, ghost t: Nodes,
                          ghost nodes: set<RBTreeNode>)
      requires nodes == All(c, t, root) && At(Snap(nodes), c, t, root)
      requires t.Node? && t.right.Node? && t.id == ancestor && t.right.id == top
      modifies nodes
      ensures nodes == All(c, LiftedMirrored(RedBlack.RotateLeft(t)), root)
      ensures At(Snap(nodes), c, LiftedMirrored(RedBlack.RotateLeft(t)), root)
    {
      hide At, All;
      RotateLeft(ancestor, c, t, nodes);
      ghost var g := RedBlack.RotateLeft(t);
      Paint(Snap(nodes), c, g, root, false);
      top.SetRed(false, nodes);
      g := g.(red := false);
      Down(Snap(nodes), c, g, root);
      Paint(Snap(nodes), LeftOf(c, g), g.left, root, true);
      ancestor.SetRed(true, nodes);
      Up(Snap(nodes), LeftOf(c, g), g.left.(red := true), root);
    }

    /** The branch of fixInsert without an uncle: one or two rotations below the grandparent. */
    method StraightenAt(x: RBTreeNode, parent: RBTreeNode, ghost c: Way, ghost t: Nodes, ghost nodes: set<RBTreeNode>)
      returns (again: RBTreeNode?)
      requires nodes == All(c, t, root) && At(Snap(nodes), c, t, root) && t.Node? && t.id == x
      requires !c.Top? && !c.up.Top? && c.id == parent
      modifies nodes
      ensures nodes == All(c.up.up, Straighten(c, t), root) && At(Snap(nodes), c.up.up, Straighten(c, t), root)
      ensures again == null || again == Straighten(c, t).id
    {
      hide At, All, Plug;
      Links(Snap(nodes), c, t, root);
      Up(Snap(nodes), c, t, root);
      ghost var c1, t1 := c.up, Raise(c, t);
      Links(Snap(nodes), c1, t1, root);
      again := parent;
      var ancestor := parent.parent;
      if parent == ancestor.left {
        var isRight := x == parent.right;
        if isRight {
          RotateLeft(parent, c1, t1, nodes);
          t1 := RedBlack.RotateLeft(t1);
        }
        Up(Snap(nodes), c1, t1, root);
        LiftLeftChild(ancestor, if isRight then x else parent, c1.up, Raise(c1, t1), nodes);
        if isRight { again := null; }
      } else {
        var isLeft := x == parent.left;
        if isLeft {
          RotateRight(parent, c1, t1, nodes);
          t1 := RedBlack.RotateRight(t1);
        }
        Up(Snap(nodes), c1, t1, root);
        LiftRightChild(ancestor, if isLeft then x else parent, c1.up, Raise(c1, t1), nodes);
        if isLeft { again := null; }
      }
    }

    /** Parent and uncle black, grandparent red. */
    method RecolourAt(parent: RBTreeNode, uncle: RBTreeNode, ghost c: Way, ghost t: Nodes, ghost nodes: set<RBTreeNode>)
      requires nodes == All(c, t, root) && At(Snap(nodes), c, t, root) && t.Node?
      requires !c.Top? && !c.up.Top? && c.id == parent && RootId(c.up.other) == uncle
      modifies nodes
      ensures nodes == All(c.up.up, Recolour(c, t), root) && At(Snap(nodes), c.up.up, Recolour(c, t), root)
      ensures parent.parent == c.up.id && Recolour(c, t).id == c.up.id
    {
      hide At, All, Plug;
      Up(Snap(nodes), c, t, root);
      ghost var c1, t1 := c.up, Raise(c, t);
      Paint(Snap(nodes), c1, t1, root, false);
      parent.SetRed(false, nodes);
      t1 := t1.(red := false);
      Links(Snap(nodes), c1, t1, root);
      Up(Snap(nodes), c1, t1, root);
      ghost var c2, t2 := c1.up, Raise(c1, t1);
      Down(Snap(nodes), c2, t2, root);
      ghost var cu := if c1.InLeft? then RightOf(c2, t2) else LeftOf(c2, t2);
      Paint(Snap(nodes), cu, c1.other, root, false);
      uncle.SetRed(false, nodes);
      Up(Snap(nodes), cu, c1.other.(red := false), root);
      t2 := Raise(cu, c1.other.(red := false));
      Paint(Snap(nodes), c2, t2, root, true);
      parent.parent.SetRed(true, nodes);
    }

    /** getRoot().makeBlack(), the root without a parent. */
    method BlackenRoot(ghost c: Way, ghost t: Nodes, ghost nodes: set<RBTreeNode>)
      requires nodes == All(c, t, root) && At(Snap(nodes), c, t, root) && t.Node?
      modifies nodes
      ensures nodes == All(Top, BlackRoot(Plug(c, t)), root) && At(Snap(nodes), Top, BlackRoot(Plug(c, t)), root)
    {
      hide At, All, Plug;
      PlugAt(Snap(nodes), c, t, root);
      PlugRoot(c, t);
      ghost var whole := Plug(c, t);
      Links(Snap(nodes), Top, whole, root);
      Paint(Snap(nodes), Top, whole, root, false);
      root.left.SetRed(false, nodes);
      Links(Snap(nodes), Top, whole.(red := false), root);
      root.left.SetParent(null, nodes);
    }

    /** One round of the loop of fixInsert. */
    method FixInsertRound(node: RBTreeNode, above: RBTreeNode, ghost c: Way, ghost t: Nodes, ghost goal: Nodes,
                          ghost nodes: set<RBTreeNode>)
      returns (x: RBTreeNode, parent: RBTreeNode?, ghost c': Way, ghost t': Nodes, ghost straight: bool)
      requires Climbing(Snap(nodes), c, t, false, node, above, goal, nodes, root) && CtxRed(c)
      modifies nodes
      ensures Climbing(Snap(nodes), c', t', straight, x, parent, goal, nodes, root)
      ensures !straight ==> !c.Top? && !c.up.Top? && c' == c.up.up
    {
      hide At, All, Plug, RedBlack.FixInsert, Recolour, Straighten, Raise, BlackRoot, CtxRootBlack, Snap, Climbing;
      x, parent := node, above;
      ClimbOpens(Snap(nodes), c, t, node, above, goal, nodes, root);
      FixInsertStep(c, t);
      var uncle := GetUncle(x, c, t, nodes);
      if uncle == null {
        parent := StraightenAt(x, parent, c, t, nodes);
        c', t', straight := c.up.up, Straighten(c, t), true;
        ClimbEnds(Snap(nodes), c', t', x, parent, goal, nodes, root);
      } else {
        RecolourAt(parent, uncle, c, t, nodes);
        c', t', straight := c.up.up, Recolour(c, t), false;
        x := parent.parent;
        ClimbStarts(Snap(nodes), c', t', root, nodes);
        parent := x.parent;
      }
    }

    method FixInsert(node: RBTreeNode, ghost c0: Way, ghost t0: Nodes, ghost nodes: set<RBTreeNode>)
      requires nodes == All(c0, t0, root) && At(Snap(nodes), c0, t0, root) && t0.Node? && t0.id == node
        && CtxRootBlack(c0)
      modifies nodes
      ensures nodes == All(Top, RedBlack.FixInsert(c0, t0), root)
        && At(Snap(nodes), Top, RedBlack.FixInsert(c0, t0), root)
    {
      hide At, All, Plug, RedBlack.FixInsert, BlackRoot, CtxRootBlack, Snap, Climbing;
      var x := node;
      ClimbStarts(Snap(nodes), c0, t0, root, nodes);
      var parent := x.parent;
      ghost var goal := RedBlack.FixInsert(c0, t0);
      ghost var c, t, straight := c0, t0, false;
      ClimbLinks(Snap(nodes), c, t, straight, x, parent, goal, nodes, root);
      while parent != null && parent.red
        invariant Climbing(Snap(nodes), c, t, straight, x, parent, goal, nodes, root)
        invariant parent != null ==> parent in nodes
        decreases if straight then 0 else 1, c
      {
        ClimbLinks(Snap(nodes), c, t, straight, x, parent, goal, nodes, root);
        x, parent, c, t, straight := FixInsertRound(x, parent, c, t, goal, nodes);
        ClimbLinks(Snap(nodes), c, t, straight, x, parent, goal, nodes, root);
      }
      ClimbLinks(Snap(nodes), c, t, straight, x, parent, goal, nodes, root);
      BlackenRoot(c, t, nodes);
    }

    /** Adds the value, or overrides the one with its key, and returns that one. */
    method AddNode(value: Value) returns (r: Option)
      requires Valid()
      modifies this`size, this`tree, root, Ids(tree)
      ensures Valid() && fresh(Ids(tree) - old(Ids(tree)))
      ensures Added(old(tree), tree, value, overrideMode, r)
    {
      var node := NewNode(value, All(Top, tree, root));
      r := AddTreeNode(node);
    }

    method NewNode(value: Value, ghost nodes: set<RBTreeNode>) returns (node: RBTreeNode)
      ensures fresh(node) && node !in nodes && node.value == value && Snap(nodes) == old(Snap(nodes))
    {
      node := new RBTreeNode(value);
    }

    /** Hangs the new red node below the holder of c. */
    method Hang(node: RBTreeNode, x: RBTreeNode, ghost c: Way, ghost nodes: set<RBTreeNode>)
      requires nodes == All(c, Leaf, root) && At(Snap(nodes), c, Leaf, root) && node !in nodes
      requires !c.Top? && x == c.id && (c.InLeft? <==> x.value.key > node.value.key)
      requires node.left == null && node.right == null && node.red
      modifies x, node
      ensures nodes + {node} == All(c, Node(Leaf, true, node, old(node.value), Leaf), root)
      ensures At(Snap(nodes + {node}), c, Node(Leaf, true, node, old(node.value), Leaf), root)
    {
      hide At, All, Snap;
      ghost var all, v := nodes + {node}, node.value;
      SameSnap(nodes, all);
      Hung(Snap(nodes), Snap(all), c, root, node, v);
      SetParent(node, x, all);
      if x.value.key > node.value.key { x.SetLeft(node, all); } else { x.SetRight(node, all); }
    }

    method AddTreeNode(node: RBTreeNode) returns (r: Option)
      requires Valid() && node !in All(Top, tree, root)
      modifies this`size, this`tree, root, Ids(tree), node
      ensures Valid() && Ids(tree) <= old(Ids(tree)) + {node}
      ensures Added(old(tree), tree, old(node.value), overrideMode, r)
    {
      hide At, All, Plug, Coloured, Values, RedBlack.FixInsert, Insert, Descend, CtxRootBlack, Added, Snap, Ids;
      ghost var value, nodes := node.value, All(Top, tree, root);
      ghost var c, t := Descend(Top, tree, value.key).0, Descend(Top, tree, value.key).1;
      InsertFacts(tree, value, node, overrideMode, c, t, if t.Node? then Some(t.val) else None);
      ghost var now := Insert(tree, value, node, overrideMode);
      AllTop(Snap(nodes), tree, root);
      r := PlaceNode(node, nodes, c, t, now);
      tree := now;
      if r.None? { size := size + 1; }
    }

    /** Leaves `now` in the heap, the tree with the node added below c or with its value at t. */
    method PlaceNode(node: RBTreeNode, ghost nodes: set<RBTreeNode>, ghost c: Way, ghost t: Nodes, ghost now: Nodes)
      returns (r: Option)
      requires nodes == All(Top, tree, root) && At(Snap(nodes), Top, tree, root) && node !in nodes
      requires (c, t) == Descend(Top, tree, node.value.key) && !IsRed(tree)
        && now == Insert(tree, node.value, node, overrideMode)
      requires (t.Leaf? && tree.Node? ==> CtxRootBlack(c)) && (tree.Leaf? ==> t.Leaf?)
      modifies nodes, node
      ensures r == if t.Node? then Some(t.val) else None
      ensures At(Snap(All(Top, now, root)), Top, now, root) && Ids(now) <= Ids(tree) + {node}
    {
      hide At, All, Plug, RedBlack.FixInsert, Descend, CtxRootBlack, Snap, Ids;
      ghost var value := node.value;
      Links(Snap(nodes), Top, tree, root);
      AllTop(Snap(nodes), tree, root);
      Prepare(node, nodes);
      if root.left == null {
        AddFirst(node, nodes);
        r := None;
      } else {
        r := AddBelow(node, nodes, c, t);
      }
      AllTop(Snap(All(Top, now, root)), now, root);
    }

    method Prepare(node: RBTreeNode, ghost nodes: set<RBTreeNode>)
      requires node !in nodes
      modifies node`left, node`right, node`parent, node`red
      ensures node.left == null && node.right == null && node.parent == null && node.red
        && Snap(nodes) == old(Snap(nodes))
    {
      node.left, node.right, node.parent, node.red := null, null, null, true;
    }

    method AddFirst(node: RBTreeNode, ghost nodes: set<RBTreeNode>)
      requires nodes == All(Top, Leaf, root) && At(Snap(nodes), Top, Leaf, root) && node !in nodes
      requires node.left == null && node.right == null && node.parent == null
      modifies root, node
      ensures nodes + {node} == All(Top, Node(Leaf, false, node, old(node.value), Leaf), root)
      ensures At(Snap(nodes + {node}), Top, Node(Leaf, false, node, old(node.value), Leaf), root)
    {
      hide At, All, Apart;
      ghost var h := Snap(nodes);
      Links(h, Top, Leaf, root);
      HolderPlaces(h, Top, root);
      root.left := node;
      node.red := false;
      Attached(h, Snap(nodes + {node}), Top, root, node, node.value, false);
    }

    method AddBelow(node: RBTreeNode, ghost nodes: set<RBTreeNode>, ghost c: Way, ghost t: Nodes) returns (r: Option)
      requires nodes == All(Top, tree, root) && At(Snap(nodes), Top, tree, root) && tree.Node? && node !in nodes
      requires node.left == null && node.right == null && node.red
      requires (c, t) == Descend(Top, tree, node.value.key) && (t.Leaf? ==> CtxRootBlack(c))
      modifies nodes, node
      ensures r == if t.Node? then Some(t.val) else None
      ensures t.Node? && !overrideMode ==> Snap(nodes) == old(Snap(nodes))
      ensures t.Node? && overrideMode ==>
        nodes == All(Top, Plug(c, t.(val := old(node.value))), root)
          && At(Snap(nodes), Top, Plug(c, t.(val := old(node.value))), root)
      ensures t.Leaf? ==>
        && nodes + {node} == All(Top, RedBlack.FixInsert(c, Node(Leaf, true, node, old(node.value), Leaf)), root)
        && At(Snap(nodes + {node}), Top, RedBlack.FixInsert(c, Node(Leaf, true, node, old(node.value), Leaf)), root)
    {
      hide At, All, Plug, RedBlack.FixInsert, CtxRootBlack;
      ghost var value := node.value;
      var x, _, _ := FindParentNode(node.value.key, nodes);
      if x.value.key == node.value.key {
        r := Some(x.value);
        if overrideMode {
          Revalue(Snap(nodes), c, t, root, node.value);
          PlugAt(Snap(nodes)[x := Snap(nodes)[x].(value := node.value)], c, t.(val := node.value), root);
          x.SetValue(node.value, nodes);
        }
        return;
      }
      HolderPlaces(Snap(nodes), c, root);
      Links(Snap(nodes), c, t, root);
      Hang(node, x, c, nodes);
      FixInsert(node, c, Node(Leaf, true, node, value, Leaf), nodes + {node});
      r := None;
    }

    /** The other child of the parent. */
    method GetSibling(node: RBTreeNode?, above: RBTreeNode, ghost c: Way, ghost t: Nodes, ghost nodes: set<RBTreeNode>)
      returns (sibling: RBTreeNode?)
      requires nodes == All(c, t, root) && At(Snap(nodes), c, t, root) && !c.Top? && node == RootId(t) && above == c.id
      ensures sibling == RootId(c.other)
    {
      hide At, All;
      Links(Snap(nodes), c, t, root);
      var parent := if node == null then above else node.parent;
      if node == null {
        return if parent.left == null then parent.right else parent.left;
      }
      if node == parent.left { return parent.right; } else { return parent.left; }
    }

    /** Case 1: a red sibling rotates above the parent. */
    method SinkAt(parent: RBTreeNode, sibling: RBTreeNode, isLeft: bool, ghost c: Way, ghost t: Nodes,
                  ghost nodes: set<RBTreeNode>)
      requires nodes == All(c, t, root) && At(Snap(nodes), c, t, root)
      requires !c.Top? && c.other.Node? && parent == c.id && sibling == c.other.id && isLeft == c.InLeft?
      modifies nodes
      ensures nodes == All(Sink(c), t, root) && At(Snap(nodes), Sink(c), t, root)
    {
      hide At, All, Snap;
      Up(Snap(nodes), c, t, root);
      Paint(Snap(nodes), c.up, Raise(c, t), root, true);
      parent.SetRed(true, nodes);
      ghost var p := Raise(c, t).(red := true);
      Down(Snap(nodes), c.up, p, root);
      ghost var cs := if isLeft then RightOf(c.up, p) else LeftOf(c.up, p);
      Paint(Snap(nodes), cs, c.other, root, false);
      sibling.SetRed(false, nodes);
      ghost var s := c.other.(red := false);
      Up(Snap(nodes), cs, s, root);
      p := Raise(cs, s);
      if isLeft {
        RotateLeft(parent, c.up, p, nodes);
        p := RedBlack.RotateLeft(p);
        Down(Snap(nodes), c.up, p, root);
        Down(Snap(nodes), LeftOf(c.up, p), p.left, root);
      } else {
        RotateRight(parent, c.up, p, nodes);
        p := RedBlack.RotateRight(p);
        Down(Snap(nodes), c.up, p, root);
        Down(Snap(nodes), RightOf(c.up, p), p.right, root);
      }
    }

    /** Case 2: the sibling turns red, the parent is now one black node short. */
    method ClimbAt(sibling: RBTreeNode, ghost c: Way, ghost t: Nodes, ghost nodes: set<RBTreeNode>)
      requires nodes == All(c, t, root) && At(Snap(nodes), c, t, root) && !c.Top? && c.other.Node?
        && sibling == c.other.id
      modifies nodes
      ensures nodes == All(c.up, Raise(WithOther(c, c.other.(red := true)), t), root)
      ensures At(Snap(nodes), c.up, Raise(WithOther(c, c.other.(red := true)), t), root)
    {
      hide At, All, Snap;
      Across(Snap(nodes), c, t, root);
      Paint(Snap(nodes), Beside(c, t), c.other, root, true);
      sibling.SetRed(true, nodes);
      Up(Snap(nodes), Beside(c, t), c.other.(red := true), root);
    }

    /** Case 3: the near nephew becomes the sibling. */
    method NearAt(sibling: RBTreeNode, isLeft: bool, ghost c: Way, ghost t: Nodes, ghost nodes: set<RBTreeNode>)
      requires nodes == All(c, t, root) && At(Snap(nodes), c, t, root)
      requires !c.Top? && NearRed(c) && sibling == c.other.id && isLeft == c.InLeft?
      modifies nodes
      ensures nodes == All(NewSibling(c), t, root) && At(Snap(nodes), NewSibling(c), t, root)
    {
      hide At, All, Snap, NewSibling;
      Across(Snap(nodes), c, t, root);
      Paint(Snap(nodes), Beside(c, t), c.other, root, true);
      sibling.SetRed(true, nodes);
      BlackenNear(sibling, isLeft, Beside(c, t), c.other.(red := true), nodes);
      NewSiblingIs(c, t);
      if isLeft {
        RotateRight(sibling, Beside(c, t), NearBlack(c), nodes);
        Across(Snap(nodes), Beside(c, t), RedBlack.RotateRight(NearBlack(c)), root);
      } else {
        RotateLeft(sibling, Beside(c, t), NearBlack(c), nodes);
        Across(Snap(nodes), Beside(c, t), RedBlack.RotateLeft(NearBlack(c)), root);
      }
    }

    /** The left or right child of the sibling turns black. */
    method BlackenNear(sibling: RBTreeNode, isLeft: bool, ghost cs: Way, ghost s: Nodes, ghost nodes: set<RBTreeNode>)
      requires nodes == All(cs, s, root) && At(Snap(nodes), cs, s, root) && s.Node? && sibling == s.id
      requires if isLeft then s.left.Node? else s.right.Node?
      modifies nodes
      ensures isLeft ==>
        nodes == All(cs, s.(left := s.left.(red := false)), root)
          && At(Snap(nodes), cs, s.(left := s.left.(red := false)), root)
      ensures !isLeft ==>
        nodes == All(cs, s.(right := s.right.(red := false)), root)
          && At(Snap(nodes), cs, s.(right := s.right.(red := false)), root)
    {
      hide At, All, Snap;
      Links(Snap(nodes), cs, s, root);
      Down(Snap(nodes), cs, s, root);
      if isLeft {
        Paint(Snap(nodes), LeftOf(cs, s), s.left, root, false);
        sibling.left.SetRed(false, nodes);
        Up(Snap(nodes), LeftOf(cs, s), s.left.(red := false), root);
      } else {
        Paint(Snap(nodes), RightOf(cs, s), s.right, root, false);
        sibling.right.SetRed(false, nodes);
        Up(Snap(nodes), RightOf(cs, s), s.right.(red := false), root);
      }
    }

    /** Case 4: the sibling takes the parent's place and colour. */
    method SettleAt(parent: RBTreeNode, sibling: RBTreeNode, isLeft: bool, ghost c: Way, ghost t: Nodes,
                    ghost nodes: set<RBTreeNode>)
      requires nodes == All(c, t, root) && At(Snap(nodes), c, t, root)
      requires !c.Top? && FarRed(c) && parent == c.id && sibling == c.other.id && isLeft == c.InLeft?
      modifies nodes
      ensures nodes == All(c.up, Settle(c, t), root) && At(Snap(nodes), c.up, Settle(c, t), root)
    {
      hide At, All, Snap, SettlePainted, SettleFar, Settle;
      ColourBoth(parent, sibling, isLeft, c, t, nodes);
      BlackenFar(sibling, isLeft, c, t, nodes);
      SettleIs(c, t);
      if isLeft {
        RotateLeft(parent, c.up, SettleFar(c, t), nodes);
      } else {
        RotateRight(parent, c.up, SettleFar(c, t), nodes);
      }
    }

    /** The sibling takes the parent's colour, the parent turns black. */
    method ColourBoth(parent: RBTreeNode, sibling: RBTreeNode, isLeft: bool, ghost c: Way, ghost t: Nodes,
                      ghost nodes: set<RBTreeNode>)
      requires nodes == All(c, t, root) && At(Snap(nodes), c, t, root)
      requires !c.Top? && c.other.Node? && parent == c.id && sibling == c.other.id && isLeft == c.InLeft?
      modifies nodes
      ensures nodes == All(c.up, SettlePainted(c, t), root) && At(Snap(nodes), c.up, SettlePainted(c, t), root)
    {
      hide At, All, Snap;
      Links(Snap(nodes), c, t, root);
      Across(Snap(nodes), c, t, root);
      ghost var cs, s := Beside(c, t), c.other.(red := c.red);
      Paint(Snap(nodes), cs, c.other, root, c.red);
      sibling.SetRed(parent.red, nodes);
      Up(Snap(nodes), cs, s, root);
      Paint(Snap(nodes), c.up, Raise(cs, s), root, false);
      parent.SetRed(false, nodes);
    }

    /** The far nephew turns black. */
    method BlackenFar(sibling: RBTreeNode, isLeft: bool, ghost c: Way, ghost t: Nodes, ghost nodes: set<RBTreeNode>)
      requires !c.Top? && FarRed(c) && sibling == c.other.id && isLeft == c.InLeft?
      requires nodes == All(c.up, SettlePainted(c, t), root) && At(Snap(nodes), c.up, SettlePainted(c, t), root)
      modifies nodes
      ensures nodes == All(c.up, SettleFar(c, t), root) && At(Snap(nodes), c.up, SettleFar(c, t), root)
    {
      hide At, All, Snap;
      ghost var p, s := SettlePainted(c, t), c.other.(red := c.red);
      Down(Snap(nodes), c.up, p, root);
      ghost var cs := if isLeft then RightOf(c.up, p) else LeftOf(c.up, p);
      Links(Snap(nodes), cs, s, root);
      Down(Snap(nodes), cs, s, root);
      if isLeft {
        Paint(Snap(nodes), RightOf(cs, s), s.right, root, false);
        sibling.right.SetRed(false, nodes);
        Up(Snap(nodes), RightOf(cs, s), s.right.(red := false), root);
        Up(Snap(nodes), cs, s.(right := s.right.(red := false)), root);
      } else {
        Paint(Snap(nodes), LeftOf(cs, s), s.left, root, false);
        sibling.left.SetRed(false, nodes);
        Up(Snap(nodes), LeftOf(cs, s), s.left.(red := false), root);
        Up(Snap(nodes), cs, s.(left := s.left.(red := false)), root);
      }
    }

    method IsBlack(node: RBTreeNode?) returns (r: bool)
      ensures r == (node == null || !node.red)
    {
      return node == null || !node.red;
    }

    /** The cases 2 to 4, below a black sibling. */
    method BlackSibling(parent: RBTreeNode, sibling: RBTreeNode, isLeft: bool, ghost c: Way, ghost t: Nodes,
                        ghost nodes: set<RBTreeNode>)
      returns (climbs: bool, settles: bool, ghost c': Way, ghost t': Nodes)
      requires nodes == All(c, t, root) && At(Snap(nodes), c, t, root)
      requires !c.Top? && c.other.Node? && !c.other.red && parent == c.id && sibling == c.other.id
        && isLeft == c.InLeft?
      modifies nodes
      ensures nodes == All(c', t', root) && At(Snap(nodes), c', t', root)
      ensures climbs == (!NearRed(c) && !FarRed(c)) && settles == FarRed(c)
      ensures climbs ==> c' == c.up && t' == Raise(WithOther(c, c.other.(red := true)), t)
      ensures settles ==> c' == Top && t' == Plug(c.up, Settle(c, t))
      ensures !climbs && !settles ==> c' == NewSibling(c) && t' == t
    {
      hide At, All, Snap, Plug, NewSibling, Settle, WithOther, Raise, NearRed, FarRed;
      NephewColours(c);
      Links(Snap(nodes), c, t, root);
      Across(Snap(nodes), c, t, root);
      Nephews(Snap(nodes), Beside(c, t), c.other, root);
      var leftBlack := IsBlack(sibling.left);
      var rightBlack := IsBlack(sibling.right);
      climbs, settles := false, false;
      if leftBlack && rightBlack {
        ClimbAt(sibling, c, t, nodes);
        climbs, c', t' := true, c.up, Raise(WithOther(c, c.other.(red := true)), t);
      } else if (isLeft && !leftBlack && rightBlack) || (!isLeft && !rightBlack && leftBlack) {
        NearAt(sibling, isLeft, c, t, nodes);
        c', t' := NewSibling(c), t;
      } else {
        SettleAt(parent, sibling, isLeft, c, t, nodes);
        PlugAt(Snap(nodes), c.up, Settle(c, t), root);
        settles, c', t' := true, Top, Plug(c.up, Settle(c, t));
      }
    }

    /** One round of the loop of fixRemove; stuck where the code dereferences a null sibling. */
    method FixRemoveRound(node: RBTreeNode?, above: RBTreeNode, ghost c: Way, ghost t: Nodes, ghost goal: Repaired,
                          ghost nodes: set<RBTreeNode>)
      returns (stuck: bool, cur: RBTreeNode?, isRed: bool, parent: RBTreeNode?, ghost c': Way, ghost t': Nodes,
        ghost settled: bool)
      requires nodes == All(c, t, root) && At(Snap(nodes), c, t, root) && Loose(c, t)
        && RedBlack.FixRemove(c, t) == goal
      requires !IsRed(t) && !c.Top? && node == RootId(t) && above == c.id
      modifies nodes
      ensures stuck == c.other.Leaf?
      ensures stuck ==> Snap(nodes) == old(Snap(nodes)) && goal == NoSibling(Plug(c, t))
      ensures !stuck ==> Mending(Snap(nodes), c', t', settled, cur, isRed, parent, goal, nodes, root)
      ensures !stuck ==> settled || Rank(c', t') < Rank(c, t)
    {
      hide At, All, Snap, Plug, NewSibling, Settle, WithOther, Raise, Sink, Loose, RedBlack.FixRemove, Rank, FarRed,
        NearRed, Mending;
      stuck, cur, isRed, parent, c', t', settled := false, node, false, above, c, t, false;
      Links(Snap(nodes), c, t, root);
      FixRemoveStep(c, t);
      var sibling := GetSibling(cur, above, c, t, nodes);
      var isLeft := above.right == sibling;
      if sibling == null {
        stuck := true;
      } else if sibling.red {
        SinkAt(above, sibling, isLeft, c, t, nodes);
        c', t' := Sink(c), t;
        SinkTop(c);
        MendGoesOn(Snap(nodes), c', t', goal, nodes, root);
      } else {
        var climbs, settles;
        climbs, settles, c', t' := BlackSibling(above, sibling, isLeft, c, t, nodes);
        if climbs {
          Links(Snap(nodes), c', t', root);
          RaisedAbove(c, t);
          cur := above;
          isRed := cur.red;
          parent := above.parent;
          MendGoesOn(Snap(nodes), c', t', goal, nodes, root);
        } else if settles {
          Links(Snap(nodes), c', t', root);
          cur := root.left;
          settled := true;
          MendSettles(Snap(nodes), c, t, cur, parent, goal, nodes, root);
        } else {
          NewSiblingTop(c);
          MendGoesOn(Snap(nodes), c', t', goal, nodes, root);
        }
      }
    }

    /** Repairs the black height from the place t below c, given by its node or, when empty, by the node above;
        false where the code dereferences a null sibling. */
    method FixRemove(node: RBTreeNode, isParent: bool, ghost c0: Way, ghost t0: Nodes, ghost nodes: set<RBTreeNode>)
      returns (ok: bool)
      requires nodes == All(c0, t0, root) && At(Snap(nodes), c0, t0, root) && Loose(c0, t0)
      requires if isParent then t0.Leaf? && !c0.Top? && node == c0.id else t0.Node? && node == t0.id
      modifies nodes
      ensures ok == RedBlack.FixRemove(c0, t0).Done?
      ensures nodes == All(Top, RedBlack.FixRemove(c0, t0).tree, root)
      ensures At(Snap(nodes), Top, RedBlack.FixRemove(c0, t0).tree, root)
    {
      hide At, All, Snap, Plug, Loose, RedBlack.FixRemove, Rank, Mending;
      Links(Snap(nodes), c0, t0, root);
      var cur: RBTreeNode? := if isParent then null else node;
      var isRed := if isParent then false else node.red;
      var parent: RBTreeNode? := if isParent then node else node.parent;
      ghost var goal := RedBlack.FixRemove(c0, t0);
      ghost var c, t, settled := c0, t0, false;
      MendGoesOn(Snap(nodes), c, t, goal, nodes, root);
      MendLinks(Snap(nodes), c, t, settled, cur, isRed, parent, goal, nodes, root);
      while !isRed && !(root.left == cur && cur.parent == null)
        invariant Mending(Snap(nodes), c, t, settled, cur, isRed, parent, goal, nodes, root)
        invariant root.left == cur ==> cur != null
        decreases if settled then 0 else 1, Rank(c, t)
      {
        MendLinks(Snap(nodes), c, t, settled, cur, isRed, parent, goal, nodes, root);
        MendRunning(Snap(nodes), c, t, settled, cur, isRed, parent, goal, nodes, root);
        ghost var c1, t1 := c, t;
        var stuck;
        stuck, cur, isRed, parent, c, t, settled := FixRemoveRound(cur, parent, c, t, goal, nodes);
        if stuck {
          PlugAt(Snap(nodes), c1, t1, root);
          return false;
        }
        MendLinks(Snap(nodes), c, t, settled, cur, isRed, parent, goal, nodes, root);
      }
      MendLinks(Snap(nodes), c, t, settled, cur, isRed, parent, goal, nodes, root);
      FinishFix(cur, isRed, parent, c, t, settled, goal, nodes);
      return true;
    }

    /** The end of fixRemove: a red place and the root turn black. */
    method FinishFix(cur: RBTreeNode?, isRed: bool, ghost parent: RBTreeNode?, ghost c: Way, ghost t: Nodes,
                     ghost settled: bool,
                     ghost goal: Repaired, ghost nodes: set<RBTreeNode>)
      requires Mending(Snap(nodes), c, t, settled, cur, isRed, parent, goal, nodes, root)
      requires isRed || (root in nodes && root.left == cur && cur != null && cur in nodes && cur.parent == null)
      modifies nodes
      ensures goal.Done? && nodes == All(Top, goal.tree, root) && At(Snap(nodes), Top, goal.tree, root)
    {
      hide At, All, Snap, Plug, Loose, RedBlack.FixRemove, Mending;
      MendLinks(Snap(nodes), c, t, settled, cur, isRed, parent, goal, nodes, root);
      ghost var t1 := t;
      if isRed {
        Paint(Snap(nodes), c, t, root, false);
        cur.SetRed(false, nodes);
        t1 := t.(red := false);
      }
      BlackenTop(c, t1);
      BlackenRoot(c, t1, nodes);
    }

    /** The smallest node of t and the node above it, or twice the root of t. */
    method FindMin(dataNode: RBTreeNode, ghost c0: Way, ghost t0: Nodes, ghost nodes: set<RBTreeNode>)
      returns (node: RBTreeNode, parent: RBTreeNode)
      requires All(c0, t0, root) <= nodes && At(Snap(nodes), c0, t0, root) && t0.Node? && t0.id == dataNode
      ensures node == Leftmost(t0).id && (parent == node <==> t0.left.Leaf?)
      ensures At(Snap(nodes), LeftCtx(c0, t0), Leftmost(t0), root) && All(LeftCtx(c0, t0), Leftmost(t0), root) <= nodes
      ensures t0.left.Node? ==> LeftCtx(c0, t0).InLeft? && LeftCtx(c0, t0).id == parent
    {
      hide At, All, Snap;
      node, parent := dataNode, dataNode;
      ghost var c, t, moved := c0, t0, false;
      Links(Snap(nodes), c, t, root);
      while node.left != null
        invariant All(c, t, root) <= nodes && At(Snap(nodes), c, t, root) && t.Node? && t.id == node && node in nodes
        invariant node.left == RootId(t.left)
        invariant LeftCtx(c, t) == LeftCtx(c0, t0) && Leftmost(t) == Leftmost(t0)
        invariant if !moved then c == c0 && t == t0 && parent == node
          else c.InLeft? && parent == c.id && parent != node && t0.left.Node?
        decreases t
      {
        parent := node;
        Links(Snap(nodes), c, t, root);
        Down(Snap(nodes), c, t, root);
        node := node.left;
        c, t, moved := LeftOf(c, t), t.left, true;
        NotAbove(Snap(nodes), c, t, root);
        Links(Snap(nodes), c, t, root);
      }
    }

    /** Takes the smallest node out of the tree t below c, unless it is t's own root; its fields stay as they are. */
    method RemoveMin(dataNode: RBTreeNode, ghost c: Way, ghost t: Nodes, ghost nodes: set<RBTreeNode>)
      returns (node: RBTreeNode)
      requires All(c, t, root) <= nodes && At(Snap(nodes), c, t, root) && t.Node? && t.id == dataNode
      modifies nodes`left, nodes`parent
      ensures node == Leftmost(t).id && node in nodes
      ensures t.left.Leaf? ==> Snap(nodes) == old(Snap(nodes))
      ensures t.left.Node? ==>
        At(Snap(nodes), LeftCtx(c, t), Leftmost(t).right, root) && node.parent == CtxId(LeftCtx(c, t))
      ensures node.right == RootId(Leftmost(t).right) && node.value == Leftmost(t).val && node.red == Leftmost(t).red
    {
      hide At, All, Snap, Spliced;
      var parent;
      node, parent := FindMin(dataNode, c, t, nodes);
      ghost var way, m := LeftCtx(c, t), Leftmost(t);
      Links(Snap(nodes), way, m, root);
      if parent == node { return; }
      SplicedAt(Snap(nodes), way, m, m.right, root);
      SplicedCommutes(Snap(nodes), way, RootId(m.right), root);
      NotAbove(Snap(nodes), way, m, root);
      parent.SetLeft(node.right, nodes);
      SetParent(node.right, parent, nodes);
    }

    method AdoptLeft(m: RBTreeNode, l: RBTreeNode?, ghost nodes: set<RBTreeNode>)
      requires m in nodes && m != root && (l != null ==> l in nodes)
      modifies m`left, (if l == null then {} else {l})`parent
      ensures Snap(nodes) == Linked(old(Snap(nodes))[m := old(Snap(nodes))[m].(left := l)], l, m)
    {
      hide Snap;
      m.SetLeft(l, nodes);
      SetParent(l, m, nodes);
    }

    method AdoptRight(m: RBTreeNode, r: RBTreeNode?, ghost nodes: set<RBTreeNode>)
      requires m in nodes && m != root && (r != null ==> r in nodes)
      modifies m`right, (if r == null then {} else {r})`parent
      ensures Snap(nodes) == Linked(old(Snap(nodes))[m := old(Snap(nodes))[m].(right := r)], r, m)
    {
      hide Snap;
      m.SetRight(r, nodes);
      SetParent(r, m, nodes);
    }

    method HangBelow(m: RBTreeNode, dataRoot: RBTreeNode, parent: RBTreeNode, ghost nodes: set<RBTreeNode>)
      requires m in nodes && parent in nodes
      modifies parent`left, parent`right, m`parent
      ensures Snap(nodes) == HungBelow(old(Snap(nodes)), dataRoot, m, parent, root)
    {
      hide Snap;
      if parent.left == dataRoot {
        parent.SetLeft(m, nodes);
      } else {
        parent.SetRight(m, nodes);
      }
      SetParent(m, parent, nodes);
    }

    /** m takes over the colour and, unless it is the right child itself, the right child of dataRoot. */
    method Inherit(m: RBTreeNode, dataRoot: RBTreeNode, ghost nodes: set<RBTreeNode>, ghost h4: Snapshot)
      requires m in nodes && m != root && m != dataRoot && (dataRoot.right != null ==> dataRoot.right in nodes)
      requires h4 == Reddened(Snap(nodes), m, dataRoot.red)
      modifies m`red, m`right, (if dataRoot.right == null then {} else {dataRoot.right})`parent
      ensures Snap(nodes) == if m != old(dataRoot.right)
        then Linked(h4[m := h4[m].(right := old(dataRoot.right))], old(dataRoot.right), m) else h4
    {
      hide Snap, Linked;
      m.SetRed(dataRoot.red, nodes);
      if m != dataRoot.right {
        AdoptRight(m, dataRoot.right, nodes);
      }
    }

    /** m, the smallest node of dataRoot's right subtree, takes over its place, its children and its colour. */
    method TakePlace(m: RBTreeNode, dataRoot: RBTreeNode, parent: RBTreeNode, ghost c: Way, ghost n: Nodes,
                     ghost h0: Snapshot, ghost nodes: set<RBTreeNode>)
      requires nodes == All(c, n, root) == h0.Keys && At(h0, c, n, root) && n.Node? && n.right.Node?
        && m == Leftmost(n.right).id && m in nodes
      requires m.value == Leftmost(n.right).val && dataRoot == n.id && parent == Holder(c, root)
      requires n.right.left.Leaf? ==> Snap(nodes) == h0
      requires n.right.left.Node? ==> At(Snap(nodes), LeftCtx(RightOf(c, n), n.right), Leftmost(n.right).right, root)
      modifies nodes`left, nodes`right, nodes`parent, nodes`red
      ensures At(Snap(nodes), c, Succeeded(n), root)
    {
      hide At, All, Snap, Succeeded, MinLess, Leftmost, LeftCtx, TookPlace;
      PlaceLinks(h0, Snap(nodes), c, n, root);
      SuccessorAt(h0, Snap(nodes), c, n, root);
      TakeOver(m, dataRoot, parent, RootId(MinLess(n.right)), c, nodes);
    }

    /** The pointer stores of it. */
    method TakeOver(m: RBTreeNode, dataRoot: RBTreeNode, parent: RBTreeNode, ghost r: RBTreeNode?, ghost c: Way,
                    ghost nodes: set<RBTreeNode>)
      requires m in nodes && dataRoot in nodes && parent in nodes && parent == Holder(c, root) && m != root
      requires dataRoot !in {m, parent} && dataRoot != dataRoot.left && m != dataRoot.left && parent !in {m}
      requires (dataRoot.left != null ==> dataRoot.left in nodes) && dataRoot.right != null && dataRoot.right in nodes
      requires m != dataRoot.right ==> r == dataRoot.right
      modifies nodes`left, nodes`right, nodes`parent, nodes`red
      ensures Snap(nodes) == TookPlace(old(Snap(nodes)), dataRoot, m, old(dataRoot.left), r,
                                       m != old(dataRoot.right), old(dataRoot.red), c, root)
    {
      hide Snap, HungBelow, Linked, TookPlace;
      ghost var h, l, inner, red := Snap(nodes), dataRoot.left, m != dataRoot.right, dataRoot.red;
      AdoptLeft(m, dataRoot.left, nodes);
      ghost var h1 := Snap(nodes);
      HangBelow(m, dataRoot, parent, nodes);
      ghost var h3 := Snap(nodes);
      TookPlaceSteps(h, h1, h3, Reddened(h3, m, red), dataRoot, m, l, r, inner, red, c, root);
      Inherit(m, dataRoot, nodes, Reddened(h3, m, red));
    }

    /** Removes a node that has a right child: its successor takes its place. */
    method RemoveInner(dataRoot: RBTreeNode, parent: RBTreeNode, ghost k: int, ghost c: Way, ghost n: Nodes,
                       ghost nodes: set<RBTreeNode>)
      returns (ok: bool, ghost w: Nodes)
      requires nodes == All(Top, tree, root) == All(c, n, root) && At(Snap(nodes), c, n, root) && Coloured(tree)
      requires (c, n) == Descend(Top, tree, k) && n.Node? && n.right.Node? && dataRoot == n.id
        && parent == Holder(c, root)
      modifies nodes
      ensures dataRoot.value == old(dataRoot.value) && ok == RedBlack.Remove(tree, k).Done?
      ensures nodes - {dataRoot} == All(Top, w, root) && At(Snap(nodes - {dataRoot}), Top, w, root)
      ensures BlackRoot(w) == RedBlack.Remove(tree, k).tree && (!ok ==> w == RedBlack.Remove(tree, k).tree)
    {
      hide At, All, Snap, Succeeded, MinLess, Leftmost, Successor, LeftCtx, Plug, RedBlack.FixRemove, RedBlack.Remove,
        Loose, Coloured;
      RemoveCases(tree, k, c, n);
      ghost var rest := nodes - {dataRoot};
      ghost var way, below := Successor(c, n), Leftmost(n.right).right;
      var right := dataRoot.right;
      var min, x, isParent, curMinIsBlack := Succeed(dataRoot, parent, c, n, nodes);
      w, ok := Plug(way, below), true;
      if curMinIsBlack {
        if min != right {
          ok := FixRemove(x, isParent, way, below, rest);
        } else if min.right != null {
          ok := FixRemove(min.right, false, way, below, rest);
        } else {
          ok := FixRemove(min, true, way, below, rest);
        }
        w := RedBlack.FixRemove(way, below).tree;
      } else {
        PlugAt(Snap(rest), way, below, root);
      }
    }

    /** The successor of dataRoot takes its place; x is the node that fixRemove starts
        at unless the successor was the right child. */
    method Succeed(dataRoot: RBTreeNode, parent: RBTreeNode, ghost c: Way, ghost n: Nodes, ghost nodes: set<RBTreeNode>)
      returns (min: RBTreeNode, x: RBTreeNode, isParent: bool, curMinIsBlack: bool)
      requires nodes == All(c, n, root) && At(Snap(nodes), c, n, root)
      requires n.Node? && n.right.Node? && dataRoot == n.id && parent == Holder(c, root)
      modifies nodes`left, nodes`right, nodes`parent, nodes`red
      ensures nodes - {dataRoot} == All(Successor(c, n), Leftmost(n.right).right, root)
      ensures At(Snap(nodes - {dataRoot}), Successor(c, n), Leftmost(n.right).right, root) && !Successor(c, n).Top?
      ensures isParent == Leftmost(n.right).right.Leaf? && curMinIsBlack == !Leftmost(n.right).red
      ensures min != old(dataRoot.right) ==>
        x == if isParent then CtxId(Successor(c, n)) else RootId(Leftmost(n.right).right)
      ensures min == old(dataRoot.right) ==>
        min.right == RootId(Leftmost(n.right).right) && CtxId(Successor(c, n)) == min
    {
      hide At, All, Snap, Succeeded, MinLess, Leftmost, Successor, LeftCtx;
      ghost var h0 := Snap(nodes);
      Links(h0, c, n, root);
      min, x, isParent := DetachMin(dataRoot, c, n, nodes);
      curMinIsBlack := !min.red;
      TakePlace(min, dataRoot, parent, c, n, h0, nodes);
      InPlace(h0, Snap(nodes), Snap(nodes - {dataRoot}), c, n, root);
    }

    /** removeMin in the right subtree of dataRoot, and where the black height may have to be repaired. */
    method DetachMin(dataRoot: RBTreeNode, ghost c: Way, ghost n: Nodes, ghost nodes: set<RBTreeNode>)
      returns (min: RBTreeNode, x: RBTreeNode, isParent: bool)
      requires nodes == All(c, n, root) && At(Snap(nodes), c, n, root) && n.Node? && n.right.Node? && dataRoot == n.id
      modifies nodes`left, nodes`parent
      ensures min == Leftmost(n.right).id && min in nodes && min.value == Leftmost(n.right).val
        && min.red == Leftmost(n.right).red
      ensures n.right.left.Leaf? ==> Snap(nodes) == old(Snap(nodes))
      ensures n.right.left.Node? ==> At(Snap(nodes), LeftCtx(RightOf(c, n), n.right), Leftmost(n.right).right, root)
      ensures isParent == Leftmost(n.right).right.Leaf? && (!isParent ==> x == Leftmost(n.right).right.id)
      ensures n.right.left.Node? && isParent ==> x == CtxId(LeftCtx(RightOf(c, n), n.right))
    {
      hide At, All, Snap, MinLess, Leftmost, LeftCtx;
      ghost var h0 := Snap(nodes);
      Links(h0, c, n, root);
      Down(h0, c, n, root);
      min := RemoveMin(dataRoot.right, RightOf(c, n), n.right, nodes);
      MinParent(h0, Snap(nodes), c, n, root);
      x := if min.right == null then min.parent else min.right;
      isParent := min.right == null;
    }

    /** Removes a node without a right child: its left child takes its place. */
    method RemoveOuter(dataRoot: RBTreeNode, parent: RBTreeNode, ghost k: int, ghost c: Way, ghost n: Nodes,
                       ghost nodes: set<RBTreeNode>)
      returns (ok: bool, ghost w: Nodes)
      requires nodes == All(Top, tree, root) == All(c, n, root) && At(Snap(nodes), c, n, root) && Coloured(tree)
      requires (c, n) == Descend(Top, tree, k) && n.Node? && n.right.Leaf? && dataRoot == n.id
        && parent == Holder(c, root)
      modifies nodes
      ensures dataRoot.value == old(dataRoot.value) && ok == RedBlack.Remove(tree, k).Done?
      ensures nodes - {dataRoot} == All(Top, w, root) && At(Snap(nodes - {dataRoot}), Top, w, root)
      ensures BlackRoot(w) == RedBlack.Remove(tree, k).tree && (!ok ==> w == RedBlack.Remove(tree, k).tree)
    {
      hide At, All, Snap, Plug, RedBlack.FixRemove, RedBlack.Remove, Loose, Coloured, Spliced;
      RemoveCases(tree, k, c, n);
      ghost var rest := nodes - {dataRoot};
      var left := dataRoot.left;
      Cut(left, dataRoot, parent, c, n, nodes);
      w, ok := Plug(c, n.left), true;
      if !dataRoot.red && root.left != null {
        ok := FixRemove(if left == null then parent else left, left == null, c, n.left, rest);
        w := RedBlack.FixRemove(c, n.left).tree;
      } else {
        PlugAt(Snap(rest), c, n.left, root);
      }
    }

    method Cut(left: RBTreeNode?, dataRoot: RBTreeNode, parent: RBTreeNode, ghost c: Way, ghost n: Nodes,
               ghost nodes: set<RBTreeNode>)
      requires nodes == All(c, n, root) && At(Snap(nodes), c, n, root)
      requires n.Node? && n.right.Leaf? && dataRoot == n.id && parent == Holder(c, root) && left == dataRoot.left
      modifies nodes`left, nodes`right, nodes`parent
      ensures nodes - {dataRoot} == All(c, n.left, root) && At(Snap(nodes - {dataRoot}), c, n.left, root)
      ensures dataRoot.red == n.red
      ensures root.left == null <==> c.Top? && n.left.Leaf?
      ensures n.left.Node? ==> left == n.left.id
      ensures n.left.Leaf? ==> left == null
    {
      hide At, All, Snap, Spliced;
      ghost var h := Snap(nodes);
      Links(h, c, n, root);
      CutFacts(h, c, n, root);
      SetParent(left, parent, nodes);
      if parent.left == dataRoot { parent.SetLeft(left, nodes); } else { parent.SetRight(left, nodes); }
      AtKept(Snap(nodes), Snap(nodes - {dataRoot}), c, n.left, root);
      if !(c.Top? && n.left.Leaf?) {
        RootBelow(Snap(nodes), c, n.left, root);
      } else {
        Links(Snap(nodes), c, n.left, root);
      }
    }

    /** Removes the value with this key and returns it, from any tree. A null sibling is dereferenced exactly when
        RemoveFails says so; the value is out of the tree then, but the size still counts it. */
    method Remove(k: int) returns (r: Removed)
      requires Valid()
      modifies this`size, this`tree, this`failures, root, Ids(tree)
      ensures r.Throws? <==> RemoveFails(old(tree), k)
      ensures Valid() && Ids(tree) <= old(Ids(tree)) && failures == old(failures) + if r.Throws? then 1 else 0
      ensures RedBlackTree(old(tree)) ==> !r.Throws? && RedBlackTree(tree)
      ensures Values(tree) == Below(old(Values(tree)), k) + Above(old(Values(tree)), k)
      ensures r == Returned(None) <==> forall x :: x in old(Values(tree)) ==> x.key != k
      ensures r.Returned? && r.value.Some? ==> r.value.value in old(Values(tree)) && r.value.value.key == k
      ensures size == old(size) - if r.Returned? && r.value.Some? then 1 else 0
    {
      hide At, All, Plug, NoRedRed, Sorted, Values, RedBlack.Remove, Descend, Snap, Coloured, RedBlackTree, Below,
        Above, Ids;
      ghost var nodes := All(Top, tree, root);
      AllTop(Snap(nodes), tree, root);
      RemoveFacts(tree, k);
      var dataRoot, parent;
      ghost var c, t;
      dataRoot, parent, c, t := Search(k, nodes);
      r := Returned(None);
      if dataRoot != null { r := TakeOut(dataRoot, parent, k, c, t, nodes); }
    }

    /** What remove does with the node it found. */
    method TakeOut(dataRoot: RBTreeNode, parent: RBTreeNode, ghost k: int, ghost c: Way, ghost n: Nodes,
                   ghost nodes: set<RBTreeNode>)
      returns (r: Removed)
      requires nodes == All(Top, tree, root) == All(c, n, root) && At(Snap(nodes), c, n, root) && Coloured(tree)
      requires (c, n) == Descend(Top, tree, k) && n.Node? && dataRoot == n.id && parent == Holder(c, root)
      requires dataRoot.value == n.val && size > 0
      modifies this`size, this`tree, this`failures, nodes
      ensures tree == RedBlack.Remove(old(tree), k).tree && Ids(tree) == All(Top, tree, root) - {root}
      ensures All(Top, tree, root) == nodes - {dataRoot} && At(Snap(All(Top, tree, root)), Top, tree, root)
      ensures r == if RedBlack.Remove(old(tree), k).Done? then Returned(Some(n.val)) else Throws
      ensures size == old(size) - (if r.Throws? then 0 else 1) && failures == old(failures) + if r.Throws? then 1 else 0
    {
      hide At, All, Plug, RedBlack.Remove, Descend, Snap, Coloured, Ids;
      var value := dataRoot.value;
      var ok;
      ghost var w;
      ok, w := RemoveNode(dataRoot, parent, k, c, n, nodes);
      tree := w;
      AllTop(Snap(All(Top, tree, root)), tree, root);
      if !ok {
        failures := failures + 1;
        return Throws;
      }
      size := size - 1;
      return Returned(Some(value));
    }

    /** The loop of remove: the node with the key, or null, and the node above. */
    method Search(k: int, ghost nodes: set<RBTreeNode>)
      returns (dataRoot: RBTreeNode?, parent: RBTreeNode, ghost c: Way, ghost t: Nodes)
      requires nodes == All(Top, tree, root) && At(Snap(nodes), Top, tree, root)
      ensures nodes == All(c, t, root) && At(Snap(nodes), c, t, root) && (c, t) == Descend(Top, tree, k)
      ensures dataRoot == RootId(t) && parent == Holder(c, root) && (t.Node? ==> t.id in nodes && t.id.value == t.val)
    {
      hide At, All, Plug, Descend, Snap;
      Links(Snap(nodes), Top, tree, root);
      dataRoot, parent := root.left, root;
      c, t := Top, tree;
      while dataRoot != null
        invariant nodes == All(c, t, root) && At(Snap(nodes), c, t, root) && dataRoot == RootId(t)
          && parent == Holder(c, root)
        invariant Descend(c, t, k) == Descend(Top, tree, k)
        decreases t
      {
        Links(Snap(nodes), c, t, root);
        Down(Snap(nodes), c, t, root);
        DescendStep(c, t, k);
        if dataRoot.value.key < k {
          parent := dataRoot;
          dataRoot := dataRoot.right;
          c, t := RightOf(c, t), t.right;
        } else if dataRoot.value.key > k {
          parent := dataRoot;
          dataRoot := dataRoot.left;
          c, t := LeftOf(c, t), t.left;
        } else {
          return;
        }
      }
      DescendStep(c, t, k);
    }

    /** Unlinks dataRoot and leaves w, what RedBlack.Remove computes; false where fixRemove fails. */
    method RemoveNode(dataRoot: RBTreeNode, parent: RBTreeNode, ghost k: int, ghost c: Way, ghost n: Nodes,
                      ghost nodes: set<RBTreeNode>)
      returns (ok: bool, ghost w: Nodes)
      requires nodes == All(Top, tree, root) == All(c, n, root) && At(Snap(nodes), c, n, root) && Coloured(tree)
      requires (c, n) == Descend(Top, tree, k) && n.Node? && dataRoot == n.id && parent == Holder(c, root)
      modifies nodes
      ensures ok == RedBlack.Remove(tree, k).Done? && w == RedBlack.Remove(tree, k).tree
      ensures nodes - {dataRoot} == All(Top, w, root) && At(Snap(nodes - {dataRoot}), Top, w, root)
      ensures ok ==> dataRoot.left == null && dataRoot.right == null && dataRoot.parent == null
    {
      hide At, All, Plug, RedBlack.Remove, Descend, Snap, Coloured;
      Links(Snap(nodes), c, n, root);
      ok, w := Detach(dataRoot, parent, k, c, n, nodes);
      if ok {
        FinishRemove(dataRoot, w, nodes - {dataRoot});
        w := BlackRoot(w);
      }
    }

    /** Takes dataRoot out of the tree; w is what is left. */
    method Detach(dataRoot: RBTreeNode, parent: RBTreeNode, ghost k: int, ghost c: Way, ghost n: Nodes,
                  ghost nodes: set<RBTreeNode>)
      returns (ok: bool, ghost w: Nodes)
      requires nodes == All(Top, tree, root) == All(c, n, root) && At(Snap(nodes), c, n, root) && Coloured(tree)
      requires (c, n) == Descend(Top, tree, k) && n.Node? && dataRoot == n.id && parent == Holder(c, root)
      modifies nodes
      ensures dataRoot.value == old(dataRoot.value) && ok == RedBlack.Remove(tree, k).Done?
      ensures nodes - {dataRoot} == All(Top, w, root) && At(Snap(nodes - {dataRoot}), Top, w, root)
      ensures BlackRoot(w) == RedBlack.Remove(tree, k).tree && (!ok ==> w == RedBlack.Remove(tree, k).tree)
    {
      hide At, All, Plug, RedBlack.Remove, Descend, Snap, Coloured;
      Links(Snap(nodes), c, n, root);
      if dataRoot.right != null {
        ok, w := RemoveInner(dataRoot, parent, k, c, n, nodes);
      } else {
        ok, w := RemoveOuter(dataRoot, parent, k, c, n, nodes);
      }
    }

    /** The removed node loses its links, the root turns black. */
    method FinishRemove(dataRoot: RBTreeNode, ghost w: Nodes, ghost rest: set<RBTreeNode>)
      requires dataRoot !in rest && rest == All(Top, w, root) && At(Snap(rest), Top, w, root)
      modifies dataRoot`left, dataRoot`right, dataRoot`parent, rest
      ensures rest == All(Top, BlackRoot(w), root) && At(Snap(rest), Top, BlackRoot(w), root)
      ensures dataRoot.left == null && dataRoot.right == null && dataRoot.parent == null
    {
      hide At, All, Plug, Snap;
      ClearLinks(dataRoot, rest);
      BlackenAny(w, rest);
    }

    method ClearLinks(node: RBTreeNode, ghost rest: set<RBTreeNode>)
      requires node !in rest
      modifies node`left, node`right, node`parent
      ensures node.left == null && node.right == null && node.parent == null && Snap(rest) == old(Snap(rest))
    {
      SetParent(node, null, {node});
      assert Snap({node})[node].parent == null;
      node.left, node.right := null, null;
    }

    method BlackenAny(ghost w: Nodes, ghost nodes: set<RBTreeNode>)
      requires nodes == All(Top, w, root) && At(Snap(nodes), Top, w, root)
      modifies nodes
      ensures nodes == All(Top, BlackRoot(w), root) && At(Snap(nodes), Top, BlackRoot(w), root)
    {
      hide At, All, Plug, Snap;
      Links(Snap(nodes), Top, w, root);
      if root.left != null {
        BlackenTop(Top, w);
        BlackenRoot(Top, w, nodes);
      }
    }
  }
}
