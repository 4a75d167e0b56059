/** Red-black trees of rbtree/src/RBTree.java as values: what the insertion and removal
    fix-up loops compute, on a tree seen from the node they stand at, and what they keep. */
module RedBlack {

  /** compareTo looks at the key only; the rest of a value is carried along. */
  datatype Value = Value(key: int, data: int)

  datatype Tree<N> =
    | Leaf
    | Node(left: Tree<N>, red: bool, id: N, val: Value, right: Tree<N>)

  /** The way from a node up to the root: on which side it hangs, the node above, the other side. */
  datatype Ctx<N> =
    | Top
    | InLeft(red: bool, id: N, val: Value, other: Tree<N>, up: Ctx<N>)
    | InRight(red: bool, id: N, val: Value, other: Tree<N>, up: Ctx<N>)

  /** The tree that c leaves when t hangs below it. */
  function Plug<N>(c: Ctx<N>, t: Tree<N>): Tree<N>
    decreases c
  {
    match c
    case Top => t
    case InLeft(red, id, v, other, up) => Plug(up, Node(t, red, id, v, other))
    case InRight(red, id, v, other, up) => Plug(up, Node(other, red, id, v, t))
  }

  // ---------- contents ----------

  ghost function Values<N>(t: Tree<N>): seq<Value> {
    if t.Leaf? then [] else Values(t.left) + [t.val] + Values(t.right)
  }

  ghost function Before<N>(c: Ctx<N>): seq<Value> {
    match c
    case Top => []
    case InLeft(_, _, _, _, up) => Before(up)
    case InRight(_, _, v, other, up) => Before(up) + Values(other) + [v]
  }

  ghost function After<N>(c: Ctx<N>): seq<Value> {
    match c
    case Top => []
    case InLeft(_, _, v, other, up) => [v] + Values(other) + After(up)
    case InRight(_, _, _, _, up) => After(up)
  }

  lemma Regroup(a: seq<Value>, l: seq<Value>, v: Value, r: seq<Value>, b: seq<Value>)
    ensures a + (l + [v] + r) + b == a + l + ([v] + r + b)
    ensures a + (l + [v] + r) + b == (a + l + [v]) + r + b
  {
  }

  lemma {:induction false} PlugValues<N>(c: Ctx<N>, t: Tree<N>)
    ensures Values(Plug(c, t)) == Before(c) + Values(t) + After(c)
  {
    match c
    case Top =>
    case InLeft(red, id, v, other, up) =>
      PlugValues(up, Node(t, red, id, v, other));
      Regroup(Before(up), Values(t), v, Values(other), After(up));
    case InRight(red, id, v, other, up) =>
      PlugValues(up, Node(other, red, id, v, t));
      Regroup(Before(up), Values(other), v, Values(t), After(up));
  }

  ghost predicate Sorted(s: seq<Value>) { forall i, j :: 0 <= i < j < |s| ==> s[i].key < s[j].key }

  /** The values with smaller and with larger keys. */
  ghost function Below(s: seq<Value>, k: int): seq<Value> {
    if s == [] then [] else (if s[0].key < k then [s[0]] else []) + Below(s[1..], k)
  }

  ghost function Above(s: seq<Value>, k: int): seq<Value> {
    if s == [] then [] else (if s[0].key > k then [s[0]] else []) + Above(s[1..], k)
  }

  /** A sorted sequence around key k. */
  lemma {:induction false} Around(a: seq<Value>, m: seq<Value>, b: seq<Value>, k: int)
    requires forall x :: x in a ==> x.key < k
    requires forall x :: x in m ==> x.key == k
    requires forall x :: x in b ==> x.key > k
    ensures Below(a + m + b, k) == a && Above(a + m + b, k) == b
  {
    if a != [] {
      assert (a + m + b)[0] == a[0] && (a + m + b)[1..] == a[1..] + m + b;
      Around(a[1..], m, b, k);
    } else if m != [] {
      assert (a + m + b)[0] == m[0] && (a + m + b)[1..] == a + m[1..] + b;
      Around(a, m[1..], b, k);
    } else if b != [] {
      assert (a + m + b)[0] == b[0] && (a + m + b)[1..] == a + m + b[1..];
      Around(a, m, b[1..], k);
    }
  }

  // ---------- colours ----------

  predicate IsRed<N>(t: Tree<N>) { t.Node? && t.red }

  predicate CtxRed<N>(c: Ctx<N>) { !c.Top? && c.red }

  ghost predicate NoRedRed<N>(t: Tree<N>) {
    t.Node? ==> NoRedRed(t.left) && NoRedRed(t.right) && (t.red ==> !IsRed(t.left) && !IsRed(t.right))
  }

  /** No red node of the context has a red child or parent, leaving open what hangs below it. */
  ghost predicate CtxNoRedRed<N>(c: Ctx<N>) {
    !c.Top? ==> NoRedRed(c.other) && CtxNoRedRed(c.up) && (c.red ==> !IsRed(c.other) && !CtxRed(c.up))
  }

  lemma {:induction false} PlugNoRedRed<N>(c: Ctx<N>, t: Tree<N>)
    ensures NoRedRed(Plug(c, t)) <==> NoRedRed(t) && CtxNoRedRed(c) && !(CtxRed(c) && IsRed(t))
  {
    match c
    case Top =>
    case InLeft(red, id, v, other, up) => PlugNoRedRed(up, Node(t, red, id, v, other));
    case InRight(red, id, v, other, up) => PlugNoRedRed(up, Node(other, red, id, v, t));
  }

  /** The root is black, if it is in the context. */
  ghost predicate CtxRootBlack<N>(c: Ctx<N>) {
    !c.Top? ==> if c.up.Top? then !c.red else CtxRootBlack(c.up)
  }

  function BlackRoot<N>(t: Tree<N>): Tree<N> { if t.Leaf? then t else t.(red := false) }

  lemma {:induction false} PlugRoot<N>(c: Ctx<N>, t: Tree<N>)
    ensures !IsRed(Plug(c, t)) <==> CtxRootBlack(c) && (c.Top? ==> !IsRed(t))
    ensures Plug(c, t).Leaf? <==> c.Top? && t.Leaf?
  {
    match c
    case Top =>
    case InLeft(red, id, v, other, up) => PlugRoot(up, Node(t, red, id, v, other));
    case InRight(red, id, v, other, up) => PlugRoot(up, Node(other, red, id, v, t));
  }

  // ---------- black heights ----------

  /** Black height over two subtrees of black heights a and b; -1 if they differ. */
  function Over(red: bool, a: int, b: int): int {
    if a != b || a < 0 then -1 else if red then a else a + 1
  }

  /** The number of black nodes on every way down, -1 if the ways differ. */
  function Height<N>(t: Tree<N>): (h: int)
    ensures h >= -1
  {
    if t.Leaf? then 0 else Over(t.red, Height(t.left), Height(t.right))
  }

  function CtxHeight<N>(c: Ctx<N>, h: int): int {
    if c.Top? then h else CtxHeight(c.up, Over(c.red, h, Height(c.other)))
  }

  lemma {:induction false} PlugHeight<N>(c: Ctx<N>, t: Tree<N>)
    ensures Height(Plug(c, t)) == CtxHeight(c, Height(t))
  {
    match c
    case Top =>
    case InLeft(red, id, v, other, up) => PlugHeight(up, Node(t, red, id, v, other));
    case InRight(red, id, v, other, up) => PlugHeight(up, Node(other, red, id, v, t));
  }

  lemma {:induction false} UnevenStays<N>(c: Ctx<N>)
    ensures CtxHeight(c, -1) == -1
  {
    if !c.Top? { UnevenStays(c.up); }
  }

  // ---------- rotations ----------

  function RotateLeft<N>(t: Tree<N>): Tree<N>
    requires t.Node? && t.right.Node?
  {
    t.right.(left := t.(right := t.right.left))
  }

  function RotateRight<N>(t: Tree<N>): Tree<N>
    requires t.Node? && t.left.Node?
  {
    t.left.(right := t.(left := t.left.right))
  }

  lemma RotateLeftValues<N>(t: Tree<N>)
    requires t.Node? && t.right.Node?
    ensures Values(RotateLeft(t)) == Values(t)
  {
    var a, b, c := Values(t.left), Values(t.right.left), Values(t.right.right);
    assert Values(t) == a + [t.val] + (b + [t.right.val] + c);
    assert Values(RotateLeft(t)) == (a + [t.val] + b) + [t.right.val] + c;
    Regroup(a + [t.val], b, t.right.val, c, []);
  }

  lemma RotateRightValues<N>(t: Tree<N>)
    requires t.Node? && t.left.Node?
    ensures Values(RotateRight(t)) == Values(t)
  {
    assert RotateLeft(RotateRight(t)) == t;
    RotateLeftValues(RotateRight(t));
  }

  // ---------- insertion ----------

  /** The way down to key k: it ends at the node with that key or at the leaf to replace. */
  function Descend<N>(c: Ctx<N>, t: Tree<N>, k: int): (r: (Ctx<N>, Tree<N>))
    ensures Plug(r.0, r.1) == Plug(c, t)
    ensures r.1.Node? ==> r.1.val.key == k
    decreases t
  {
    if t.Leaf? || t.val.key == k then (c, t)
    else if k < t.val.key then Descend(InLeft(t.red, t.id, t.val, t.right, c), t.left, k)
    else Descend(InRight(t.red, t.id, t.val, t.left, c), t.right, k)
  }

  lemma {:induction false} DescendSplits<N>(c: Ctx<N>, t: Tree<N>, k: int)
    requires Sorted(Before(c) + Values(t) + After(c))
    requires forall x :: x in Before(c) ==> x.key < k
    requires forall x :: x in After(c) ==> x.key > k
    ensures forall x :: x in Before(Descend(c, t, k).0) ==> x.key < k
    ensures forall x :: x in After(Descend(c, t, k).0) ==> x.key > k
    decreases t
  {
    if t.Leaf? || t.val.key == k {
    } else if k < t.val.key {
      SortedParts(Before(c), Values(t.left), t.val, Values(t.right), After(c));
      DescendSplits(InLeft(t.red, t.id, t.val, t.right, c), t.left, k);
    } else {
      SortedParts(Before(c), Values(t.left), t.val, Values(t.right), After(c));
      DescendSplits(InRight(t.red, t.id, t.val, t.left, c), t.right, k);
    }
  }

  lemma SortedParts(a: seq<Value>, l: seq<Value>, v: Value, r: seq<Value>, b: seq<Value>)
    requires Sorted(a + (l + [v] + r) + b)
    ensures forall x :: x in l ==> x.key < v.key
    ensures forall x :: x in r ==> x.key > v.key
    ensures Sorted(a + l + ([v] + r + b)) && Sorted((a + l + [v]) + r + b)
  {
    var s := a + (l + [v] + r) + b;
    assert s == a + l + ([v] + r + b) && s == (a + l + [v]) + r + b;
    assert s[|a| + |l|] == v;
    forall x | x in l ensures x.key < v.key {
      var i :| 0 <= i < |l| && l[i] == x;
      assert s[|a| + i] == x;
    }
    forall x | x in r ensures x.key > v.key {
      var i :| 0 <= i < |r| && r[i] == x;
      assert s[|a| + |l| + 1 + i] == x;
    }
  }

  /** The subtree one step up. */
  function Raise<N>(c: Ctx<N>, t: Tree<N>): (r: Tree<N>)
    requires !c.Top?
    ensures r.Node?
  {
    if c.InLeft? then Node(t, c.red, c.id, c.val, c.other) else Node(c.other, c.red, c.id, c.val, t)
  }

  /** The red node t has a red parent and no uncle: one or two rotations at the grandparent. */
  function Straighten<N>(c: Ctx<N>, t: Tree<N>): Tree<N>
    requires t.Node? && !c.Top? && !c.up.Top?
  {
    if c.up.InLeft? then
      if c.InLeft? then
        var g := RotateRight(Raise(c.up, Raise(c, t)));
        g.(red := false, right := g.right.(red := true))
      else
        var g := RotateRight(Raise(c.up, RotateLeft(Raise(c, t))));
        g.(red := false, right := g.right.(red := true))
    else
      if c.InRight? then
        var g := RotateLeft(Raise(c.up, Raise(c, t)));
        g.(red := false, left := g.left.(red := true))
      else
        var g := RotateLeft(Raise(c.up, RotateRight(Raise(c, t))));
        g.(red := false, left := g.left.(red := true))
  }

  /** Parent and uncle black, grandparent red - whatever the uncle's colour was. */
  function Recolour<N>(c: Ctx<N>, t: Tree<N>): Tree<N>
    requires t.Node? && !c.Top? && !c.up.Top? && c.up.other.Node?
  {
    var parent := BlackRoot(Raise(c, t));
    if c.up.InLeft? then Node(parent, true, c.up.id, c.up.val, c.up.other.(red := false))
    else Node(c.up.other.(red := false), true, c.up.id, c.up.val, parent)
  }

  /** What fixInsert makes of the tree when it is called at the red node t. */
  function FixInsert<N>(c: Ctx<N>, t: Tree<N>): Tree<N>
    requires t.Node? && CtxRootBlack(c)
    decreases c
  {
    if !CtxRed(c) then BlackRoot(Plug(c, t))
    else if c.up.other.Leaf? then BlackRoot(Plug(c.up.up, Straighten(c, t)))
    else
      assert CtxRootBlack(c.up);
      FixInsert(c.up.up, Recolour(c, t))
  }

  lemma RaiseValues<N>(c: Ctx<N>, t: Tree<N>)
    requires !c.Top?
    ensures Before(c) + Values(t) + After(c) == Before(c.up) + Values(Raise(c, t)) + After(c.up)
  {
    if c.InLeft? {
      Regroup(Before(c.up), Values(t), c.val, Values(c.other), After(c.up));
    } else {
      Regroup(Before(c.up), Values(c.other), c.val, Values(t), After(c.up));
    }
  }

  lemma SameRaise<N>(c: Ctx<N>, t: Tree<N>, t': Tree<N>)
    requires !c.Top? && Values(t) == Values(t')
    ensures Values(Raise(c, t)) == Values(Raise(c, t'))
  {
  }

  lemma StraightenValues<N>(c: Ctx<N>, t: Tree<N>)
    requires t.Node? && !c.Top? && !c.up.Top?
    ensures Values(Straighten(c, t)) == Values(Raise(c.up, Raise(c, t)))
  {
    hide Values;
    var p := Raise(c, t);
    var q := if c.up.InLeft? == c.InLeft? then p else if c.InLeft? then RotateRight(p) else RotateLeft(p);
    if c.up.InLeft? == c.InLeft? {
    } else if c.InLeft? {
      RotateRightValues(p);
    } else {
      RotateLeftValues(p);
    }
    SameRaise(c.up, p, q);
    var g0 := Raise(c.up, q);
    if c.up.InLeft? { RotateRightValues(g0); } else { RotateLeftValues(g0); }
    var g := if c.up.InLeft? then RotateRight(g0) else RotateLeft(g0);
    ColourValues(g, Straighten(c, t));
  }

  /** Colours do not matter for the contents. */
  lemma ColourValues<N>(g: Tree<N>, h: Tree<N>)
    requires g.Node? && h.Node? && g.val == h.val && g.left.Node? && g.right.Node? && h.left.Node? && h.right.Node?
    requires g.left.(red := false) == h.left.(red := false) && g.right.(red := false) == h.right.(red := false)
    ensures Values(g) == Values(h)
  {
    assert Values(g.left) == Values(h.left);
    assert Values(g.right) == Values(h.right);
  }

  lemma {:induction false} FixInsertValues<N>(c: Ctx<N>, t: Tree<N>)
    requires t.Node? && CtxRootBlack(c)
    ensures Values(FixInsert(c, t)) == Before(c) + Values(t) + After(c)
    decreases c
  {
    if !CtxRed(c) {
      PlugValues(c, t);
      BlackRootValues(Plug(c, t));
    } else {
      RaiseValues(c, t);
      RaiseValues(c.up, Raise(c, t));
      if c.up.other.Leaf? {
        StraightenValues(c, t);
        PlugValues(c.up.up, Straighten(c, t));
        BlackRootValues(Plug(c.up.up, Straighten(c, t)));
      } else {
        FixInsertValues(c.up.up, Recolour(c, t));
        ColourValues(Recolour(c, t), Raise(c.up, Raise(c, t)));
      }
    }
  }

  lemma BlackRootValues<N>(t: Tree<N>)
    ensures Values(BlackRoot(t)) == Values(t)
  {
  }

  lemma {:induction false} FixInsertColours<N>(c: Ctx<N>, t: Tree<N>)
    requires t.Node? && t.red && NoRedRed(t) && CtxNoRedRed(c) && CtxRootBlack(c)
    ensures FixInsert(c, t).Node? && NoRedRed(FixInsert(c, t)) && !IsRed(FixInsert(c, t))
    decreases c
  {
    if !CtxRed(c) {
      PlugNoRedRed(c, t);
      PlugRoot(c, t);
    } else if c.up.other.Leaf? {
      var g := Straighten(c, t);
      assert NoRedRed(g) && !g.red;
      PlugNoRedRed(c.up.up, g);
      PlugRoot(c.up.up, g);
    } else {
      FixInsertColours(c.up.up, Recolour(c, t));
    }
  }

  /** The climb from a red node with context c recolours below a black uncle. */
  predicate MeetsBlackUncle<N>(c: Ctx<N>) {
    CtxRed(c) && !c.up.Top? && c.up.other.Node? && (!c.up.other.red || MeetsBlackUncle(c.up.up))
  }

  /** Once uneven, the tree stays uneven: with equal heights outside t, no ancestor lacks a child. */
  lemma {:induction false} FixInsertStaysUneven<N>(c: Ctx<N>, t: Tree<N>, h: int)
    requires t.Node? && t.red && CtxRootBlack(c) && Height(t) == -1
    requires h >= 1 && CtxHeight(c, h) >= 0
    requires CtxNoRedRed(c)
    ensures Height(FixInsert(c, t)) == -1
    decreases c
  {
    if !CtxRed(c) {
      PlugHeight(c, t);
      UnevenStays(c);
      if !c.Top? { PlugUnevenRoot(c, t); }
    } else {
      if Over(c.red, h, Height(c.other)) == -1 { UnevenStays(c.up); }
      if Over(c.up.red, h, Height(c.up.other)) == -1 { UnevenStays(c.up.up); }
      assert c.up.other.Node?;
      FixInsertStaysUneven(c.up.up, Recolour(c, t), h + 1);
    }
  }

  lemma PlugUnevenRoot<N>(c: Ctx<N>, t: Tree<N>)
    requires !c.Top? && Height(Plug(c, t)) == -1
    ensures Height(BlackRoot(Plug(c, t))) == -1
  {
  }

  /** Equal black heights survive an insertion exactly when no black uncle is met. */
  lemma {:induction false} FixInsertHeight<N>(c: Ctx<N>, t: Tree<N>)
    requires t.Node? && t.red && NoRedRed(t) && CtxNoRedRed(c) && CtxRootBlack(c)
    requires Height(t) >= 0 && CtxHeight(c, Height(t)) >= 0
    ensures Height(FixInsert(c, t)) >= 0 <==> !MeetsBlackUncle(c)
    decreases c
  {
    if !CtxRed(c) {
      PlugHeight(c, t);
      PlugRoot(c, t);
    } else {
      var h := Height(t);
      if Over(c.red, h, Height(c.other)) == -1 { UnevenStays(c.up); }
      if Over(c.up.red, h, Height(c.up.other)) == -1 { UnevenStays(c.up.up); }
      if c.up.other.Leaf? {
        var g := Straighten(c, t);
        assert Height(g) == 1;
        PlugHeight(c.up.up, g);
        PlugRoot(c.up.up, g);
      } else if c.up.other.red {
        FixInsertHeight(c.up.up, Recolour(c, t));
      } else {
        assert Height(Recolour(c, t)) == -1;
        FixInsertStaysUneven(c.up.up, Recolour(c, t), h + 1);
      }
    }
  }

  // ---------- removal ----------

  /** Below c hangs t; but for the edge above t no red node is below a red one. Nothing is said of black heights. */
  ghost predicate Loose<N>(c: Ctx<N>, t: Tree<N>) { NoRedRedBelow(t) && CtxNoRedRed(c) && CtxRootBlack(c) }

  /** And t is one black node short; everything else obeys the rules. */
  ghost predicate Short<N>(c: Ctx<N>, t: Tree<N>) {
    Loose(c, t) && Height(t) >= 0 && CtxHeight(c, Height(t) + 1) >= 0
  }

  ghost predicate NoRedRedBelow<N>(t: Tree<N>) { t.Node? ==> NoRedRed(t.left) && NoRedRed(t.right) }

  function WithOther<N>(c: Ctx<N>, other: Tree<N>): (r: Ctx<N>)
    requires !c.Top?
    ensures !r.Top?
  {
    if c.InLeft? then InLeft(c.red, c.id, c.val, other, c.up) else InRight(c.red, c.id, c.val, other, c.up)
  }

  lemma CtxLevel<N>(c: Ctx<N>, h: int)
    requires !c.Top? && CtxHeight(c, h) >= 0
    ensures Height(c.other) == h && CtxHeight(c, h) == CtxHeight(c.up, if c.red then h else h + 1)
    ensures h >= 0
  {
    if Over(c.red, h, Height(c.other)) == -1 { UnevenStays(c.up); }
  }

  /** The sibling of a place that is one black node short exists: getSibling is never null. */
  lemma SiblingExists<N>(c: Ctx<N>, t: Tree<N>)
    requires Short(c, t) && !c.Top?
    ensures c.other.Node? && Height(c.other) == Height(t) + 1
    ensures !IsRed(c.other) ==> Height(c.other.left) == Height(c.other.right) == Height(t)
  {
    CtxLevel(c, Height(t) + 1);
  }

  /** Case 1, a red sibling: it rotates above the parent; the place sinks one level. */
  function Sink<N>(c: Ctx<N>): Ctx<N>
    requires !c.Top? && c.other.Node?
  {
    if c.InLeft?
      then InLeft(true, c.id, c.val, c.other.left, InLeft(false, c.other.id, c.other.val, c.other.right, c.up))
    else InRight(true, c.id, c.val, c.other.right, InRight(false, c.other.id, c.other.val, c.other.left, c.up))
  }

  /** Case 3, only the near nephew is red: it becomes the sibling. */
  function NewSibling<N>(c: Ctx<N>): Ctx<N>
    requires !c.Top? && c.other.Node? && (if c.InLeft? then c.other.left.Node? else c.other.right.Node?)
  {
    if c.InLeft? then WithOther(c, RotateRight(c.other.(red := true, left := c.other.left.(red := false))))
    else WithOther(c, RotateLeft(c.other.(red := true, right := c.other.right.(red := false))))
  }

  /** Case 4, the far nephew is red: the sibling takes the parent's place and colour. */
  function Settle<N>(c: Ctx<N>, t: Tree<N>): Tree<N>
    requires !c.Top? && c.other.Node? && (if c.InLeft? then c.other.right.Node? else c.other.left.Node?)
  {
    if c.InLeft? then
      RotateLeft(Node(t, false, c.id, c.val, c.other.(red := c.red, right := c.other.right.(red := false))))
    else
      RotateRight(Node(c.other.(red := c.red, left := c.other.left.(red := false)), false, c.id, c.val, t))
  }

  predicate NearRed<N>(c: Ctx<N>) {
    !c.Top? && c.other.Node? && IsRed(if c.InLeft? then c.other.left else c.other.right)
  }
  predicate FarRed<N>(c: Ctx<N>) {
    !c.Top? && c.other.Node? && IsRed(if c.InLeft? then c.other.right else c.other.left)
  }

  /** How far the loop can climb: to the first red ancestor or the root. */
  function Steps<N>(c: Ctx<N>): nat { if c.Top? then 0 else if c.red then 1 else 1 + Steps(c.up) }

  lemma SinkStaysLoose<N>(c: Ctx<N>, t: Tree<N>)
    requires Loose(c, t) && !c.Top? && IsRed(c.other)
    ensures Loose(Sink(c), t) && !Sink(c).Top? && !IsRed(Sink(c).other) && Sink(c).red && !c.red
  {
  }

  lemma ClimbStaysLoose<N>(c: Ctx<N>, t: Tree<N>)
    requires Loose(c, t) && !IsRed(t) && !c.Top? && c.other.Node? && !NearRed(c) && !FarRed(c)
    ensures Loose(c.up, Raise(WithOther(c, c.other.(red := true)), t))
    ensures IsRed(Raise(WithOther(c, c.other.(red := true)), t)) == c.red
  {
  }

  lemma NewSiblingStaysLoose<N>(c: Ctx<N>, t: Tree<N>)
    requires Loose(c, t) && !c.Top? && c.other.Node? && !c.other.red && NearRed(c) && !FarRed(c)
    ensures Loose(NewSibling(c), t) && NewSibling(c).other.Node? && !NewSibling(c).other.red && FarRed(NewSibling(c))
  {
    assert NoRedRed(c.other) && NoRedRed(c.other.left) && NoRedRed(c.other.right);
    var o := NewSibling(c).other;
    assert NoRedRed(o.left) && NoRedRed(o.right);
  }

  lemma SinkStaysShort<N>(c: Ctx<N>, t: Tree<N>)
    requires Short(c, t) && !c.Top? && IsRed(c.other)
    ensures Short(Sink(c), t)
  {
    SinkStaysLoose(c, t);
    CtxLevel(c, Height(t) + 1);
    assert CtxHeight(Sink(c), Height(t) + 1) == CtxHeight(c, Height(t) + 1);
  }

  lemma ClimbStaysShort<N>(c: Ctx<N>, t: Tree<N>)
    requires Short(c, t) && !IsRed(t) && !c.Top? && c.other.Node? && !c.other.red && !NearRed(c) && !FarRed(c)
    ensures Short(c.up, Raise(WithOther(c, c.other.(red := true)), t))
  {
    ClimbStaysLoose(c, t);
    CtxLevel(c, Height(t) + 1);
  }

  lemma NewSiblingStaysShort<N>(c: Ctx<N>, t: Tree<N>)
    requires Short(c, t) && !c.Top? && c.other.Node? && !c.other.red && NearRed(c) && !FarRed(c)
    ensures Short(NewSibling(c), t)
  {
    NewSiblingStaysLoose(c, t);
    CtxLevel(c, Height(t) + 1);
    assert Height(NewSibling(c).other) == Height(c.other);
  }

  /** The tree that fixRemove leaves, done or when it stops at a null sibling. */
  datatype Fixed<N> = NoSibling(tree: Tree<N>) | Done(tree: Tree<N>)

  /** What fixRemove makes of the tree when it starts at t below c. */
  function FixRemove<N>(c: Ctx<N>, t: Tree<N>): Fixed<N>
    requires Loose(c, t)
    decreases if IsRed(t) then 0 else 1, Steps(c), if !c.Top? && IsRed(c.other) then 1 else 0,
      if FarRed(c) then 0 else 1
  {
    if IsRed(t) then Done(BlackRoot(Plug(c, t.(red := false))))
    else if c.Top? then Done(BlackRoot(t))
    else if c.other.Leaf? then NoSibling(Plug(c, t))
    else if c.other.red then
      SinkStaysLoose(c, t);
      FixRemove(Sink(c), t)
    else if !NearRed(c) && !FarRed(c) then
      ClimbStaysLoose(c, t);
      FixRemove(c.up, Raise(WithOther(c, c.other.(red := true)), t))
    else if !FarRed(c) then
      NewSiblingStaysLoose(c, t);
      FixRemove(NewSibling(c), t)
    else Done(BlackRoot(Plug(c.up, Settle(c, t))))
  }

  /** The climb from a black place with context c comes to a place without a sibling: there is none, or it is red
      without a near child, or it is black with black children below a black parent for which this holds again. */
  predicate MeetsNoSibling<N>(c: Ctx<N>) {
    !c.Top?
    && (c.other.Leaf?
        || (c.other.red && (if c.InLeft? then c.other.left else c.other.right).Leaf?)
        || (!c.other.red && !NearRed(c) && !FarRed(c) && !c.red && MeetsNoSibling(c.up)))
  }

  /** fixRemove dereferences a null sibling exactly in that case. */
  lemma {:induction false} FixRemoveFails<N>(c: Ctx<N>, t: Tree<N>)
    requires Loose(c, t)
    ensures FixRemove(c, t).NoSibling? <==> !IsRed(t) && MeetsNoSibling(c)
    decreases if IsRed(t) then 0 else 1, Steps(c), if !c.Top? && IsRed(c.other) then 1 else 0,
      if FarRed(c) then 0 else 1
  {
    if !IsRed(t) && !c.Top? && c.other.Node? {
      if c.other.red {
        SinkStaysLoose(c, t);
        FixRemoveFails(Sink(c), t);
      } else if !NearRed(c) && !FarRed(c) {
        ClimbStaysLoose(c, t);
        FixRemoveFails(c.up, Raise(WithOther(c, c.other.(red := true)), t));
      } else if !FarRed(c) {
        NewSiblingStaysLoose(c, t);
        FixRemoveFails(NewSibling(c), t);
      }
    }
  }

  /** Done or not, fixRemove leaves no red-red edge and a black root. */
  lemma {:induction false} FixRemoveColours<N>(c: Ctx<N>, t: Tree<N>)
    requires Loose(c, t)
    ensures NoRedRed(FixRemove(c, t).tree) && (!c.Top? || t.Node? ==> FixRemove(c, t).tree.Node?)
      && !IsRed(FixRemove(c, t).tree)
    decreases if IsRed(t) then 0 else 1, Steps(c), if !c.Top? && IsRed(c.other) then 1 else 0,
      if FarRed(c) then 0 else 1
  {
    if IsRed(t) {
      PlugColours(c, t.(red := false));
    } else if c.Top? {
    } else if c.other.Leaf? {
      PlugNoRedRed(c, t);
      PlugRoot(c, t);
    } else if c.other.red {
      SinkStaysLoose(c, t);
      FixRemoveColours(Sink(c), t);
    } else if !NearRed(c) && !FarRed(c) {
      ClimbStaysLoose(c, t);
      FixRemoveColours(c.up, Raise(WithOther(c, c.other.(red := true)), t));
    } else if !FarRed(c) {
      NewSiblingStaysLoose(c, t);
      FixRemoveColours(NewSibling(c), t);
    } else {
      SettleColours(c, t);
      PlugColours(c.up, Settle(c, t));
    }
  }

  /** At a place one black node short fixRemove meets no null sibling and restores equal black heights. */
  lemma {:induction false} FixRemoveRules<N>(c: Ctx<N>, t: Tree<N>)
    requires Short(c, t)
    ensures FixRemove(c, t).Done? && Height(FixRemove(c, t).tree) >= 0
    decreases if IsRed(t) then 0 else 1, Steps(c), if !c.Top? && IsRed(c.other) then 1 else 0,
      if FarRed(c) then 0 else 1
  {
    if IsRed(t) {
      PlugRules(c, t.(red := false));
    } else if c.Top? {
    } else {
      SiblingExists(c, t);
      if c.other.red {
        SinkStaysLoose(c, t);
        SinkStaysShort(c, t);
        FixRemoveRules(Sink(c), t);
      } else if !NearRed(c) && !FarRed(c) {
        ClimbStaysLoose(c, t);
        ClimbStaysShort(c, t);
        FixRemoveRules(c.up, Raise(WithOther(c, c.other.(red := true)), t));
      } else if !FarRed(c) {
        NewSiblingStaysLoose(c, t);
        NewSiblingStaysShort(c, t);
        FixRemoveRules(NewSibling(c), t);
      } else {
        SettleColours(c, t);
        SettleRules(c, t);
        PlugRules(c.up, Settle(c, t));
      }
    }
  }

  lemma SettleColours<N>(c: Ctx<N>, t: Tree<N>)
    requires Loose(c, t) && !IsRed(t) && !c.Top? && c.other.Node? && !c.other.red && FarRed(c)
    ensures NoRedRed(Settle(c, t)) && CtxNoRedRed(c.up) && CtxRootBlack(c.up)
    ensures Settle(c, t).Node? && Settle(c, t).red == c.red && !(CtxRed(c.up) && c.red) && (c.up.Top? ==> !c.red)
  {
    assert NoRedRed(c.other) && NoRedRed(c.other.left) && NoRedRed(c.other.right);
  }

  lemma PlugColours<N>(c: Ctx<N>, t: Tree<N>)
    requires NoRedRed(t) && CtxNoRedRed(c) && CtxRootBlack(c) && !(CtxRed(c) && IsRed(t))
    ensures NoRedRed(BlackRoot(Plug(c, t))) && !IsRed(BlackRoot(Plug(c, t)))
    ensures Plug(c, t).Leaf? <==> c.Top? && t.Leaf?
  {
    PlugNoRedRed(c, t);
    PlugRoot(c, t);
  }

  lemma SettleRules<N>(c: Ctx<N>, t: Tree<N>)
    requires Short(c, t) && !IsRed(t) && !c.Top? && c.other.Node? && !c.other.red && FarRed(c)
    ensures CtxHeight(c.up, Height(Settle(c, t))) >= 0
  {
    CtxLevel(c, Height(t) + 1);
    assert Height(Settle(c, t)) == if c.red then Height(t) + 1 else Height(t) + 2;
  }

  lemma PlugRules<N>(c: Ctx<N>, t: Tree<N>)
    requires NoRedRed(t) && CtxNoRedRed(c) && CtxRootBlack(c) && !(CtxRed(c) && IsRed(t))
      && CtxHeight(c, Height(t)) >= 0
    ensures NoRedRed(BlackRoot(Plug(c, t))) && !IsRed(BlackRoot(Plug(c, t))) && Height(BlackRoot(Plug(c, t))) >= 0
  {
    PlugNoRedRed(c, t);
    PlugRoot(c, t);
    PlugHeight(c, t);
  }

  lemma {:induction false} FixRemoveValues<N>(c: Ctx<N>, t: Tree<N>)
    requires Loose(c, t)
    ensures Values(FixRemove(c, t).tree) == Before(c) + Values(t) + After(c)
    decreases if IsRed(t) then 0 else 1, Steps(c), if !c.Top? && IsRed(c.other) then 1 else 0,
      if FarRed(c) then 0 else 1
  {
    if IsRed(t) {
      PlugValues(c, t.(red := false));
      BlackRootValues(Plug(c, t.(red := false)));
    } else if c.Top? {
      BlackRootValues(t);
    } else if c.other.Leaf? {
      PlugValues(c, t);
    } else if c.other.red {
      SinkStaysLoose(c, t);
      FixRemoveValues(Sink(c), t);
      SinkValues(c);
    } else if !NearRed(c) && !FarRed(c) {
      ClimbStaysLoose(c, t);
      FixRemoveValues(c.up, Raise(WithOther(c, c.other.(red := true)), t));
      RaiseValues(WithOther(c, c.other.(red := true)), t);
    } else if !FarRed(c) {
      NewSiblingStaysLoose(c, t);
      FixRemoveValues(NewSibling(c), t);
      NewSiblingValues(c);
    } else {
      PlugValues(c.up, Settle(c, t));
      BlackRootValues(Plug(c.up, Settle(c, t)));
      SettleValues(c, t);
      RaiseValues(c, t);
    }
  }

  lemma SinkValues<N>(c: Ctx<N>)
    requires !c.Top? && c.other.Node?
    ensures Before(Sink(c)) == Before(c) && After(Sink(c)) == After(c)
  {
    var l, r := Values(c.other.left), Values(c.other.right);
    if c.InLeft? {
      assert [c.val] + l + ([c.other.val] + r + After(c.up)) == [c.val] + (l + [c.other.val] + r) + After(c.up);
    } else {
      assert (Before(c.up) + l + [c.other.val]) + r + [c.val] == Before(c.up) + (l + [c.other.val] + r) + [c.val];
    }
  }

  lemma NewSiblingValues<N>(c: Ctx<N>)
    requires !c.Top? && c.other.Node? && (if c.InLeft? then c.other.left.Node? else c.other.right.Node?)
    ensures Before(NewSibling(c)) == Before(c) && After(NewSibling(c)) == After(c)
  {
    if c.InLeft? {
      var s := c.other.(red := true, left := c.other.left.(red := false));
      assert Values(s.left) == Values(c.other.left);
      RotateRightValues(s);
      assert Values(NewSibling(c).other) == Values(c.other);
    } else {
      var s := c.other.(red := true, right := c.other.right.(red := false));
      assert Values(s.right) == Values(c.other.right);
      RotateLeftValues(s);
      assert Values(NewSibling(c).other) == Values(c.other);
    }
  }

  lemma SettleValues<N>(c: Ctx<N>, t: Tree<N>)
    requires !c.Top? && c.other.Node? && (if c.InLeft? then c.other.right.Node? else c.other.left.Node?)
    ensures Values(Settle(c, t)) == Values(Raise(c, t))
  {
    if c.InLeft? {
      var s := c.other.(red := c.red, right := c.other.right.(red := false));
      assert Values(s.right) == Values(c.other.right);
      assert Values(s) == Values(c.other);
      RotateLeftValues(Node(t, false, c.id, c.val, s));
    } else {
      var s := c.other.(red := c.red, left := c.other.left.(red := false));
      assert Values(s.left) == Values(c.other.left);
      assert Values(s) == Values(c.other);
      RotateRightValues(Node(s, false, c.id, c.val, t));
    }
  }

  // ---------- the whole operations ----------

  /** An ordered tree with a black root and no red-red edge. */
  ghost predicate Coloured<N>(t: Tree<N>) { Sorted(Values(t)) && NoRedRed(t) && !IsRed(t) }

  /** The red-black rules. */
  ghost predicate RedBlackTree<N>(t: Tree<N>) {
    Sorted(Values(t)) && NoRedRed(t) && !IsRed(t) && Height(t) >= 0
  }

  lemma DescendRoot<N>(t: Tree<N>, k: int)
    requires Sorted(Values(t))
    ensures Plug(Descend(Top, t, k).0, Descend(Top, t, k).1) == t
    ensures forall x :: x in Before(Descend(Top, t, k).0) ==> x.key < k
    ensures forall x :: x in After(Descend(Top, t, k).0) ==> x.key > k
    ensures Values(t) == Before(Descend(Top, t, k).0) + Values(Descend(Top, t, k).1) + After(Descend(Top, t, k).0)
  {
    assert Before<N>(Top) + Values(t) + After<N>(Top) == Values(t);
    DescendSplits(Top, t, k);
    PlugValues(Descend(Top, t, k).0, Descend(Top, t, k).1);
  }

  lemma SortedSplit(a: seq<Value>, l: seq<Value>, v: Value, r: seq<Value>, b: seq<Value>)
    requires Sorted(a + (l + [v] + r) + b)
    ensures forall x :: x in a + l ==> x.key < v.key
    ensures forall x :: x in r + b ==> x.key > v.key
    ensures a + (l + [v] + r) + b == (a + l) + [v] + (r + b)
  {
    SortedParts(a, l, v, r, b);
    var s := a + (l + [v] + r) + b;
    assert s == (a + l) + [v] + (r + b);
    assert s[|a + l|] == v;
    forall x | x in a + l ensures x.key < v.key {
      var i :| 0 <= i < |a + l| && (a + l)[i] == x;
      assert s[i] == x;
    }
    forall x | x in r + b ensures x.key > v.key {
      var i :| 0 <= i < |r + b| && (r + b)[i] == x;
      assert s[|a + l| + 1 + i] == x;
    }
  }

  /** The node with key k divides the values into those below and those above. */
  lemma FoundSplits<N>(t: Tree<N>, k: int)
    requires Sorted(Values(t)) && Descend(Top, t, k).1.Node?
    ensures Before(Descend(Top, t, k).0) + Values(Descend(Top, t, k).1.left) == Below(Values(t), k)
    ensures Values(Descend(Top, t, k).1.right) + After(Descend(Top, t, k).0) == Above(Values(t), k)
    ensures Values(t) == Below(Values(t), k) + [Descend(Top, t, k).1.val] + Above(Values(t), k)
  {
    DescendRoot(t, k);
    var c, n := Descend(Top, t, k).0, Descend(Top, t, k).1;
    SortedSplit(Before(c), Values(n.left), n.val, Values(n.right), After(c));
    Around(Before(c) + Values(n.left), [n.val], Values(n.right) + After(c), k);
  }

  /** No node has key k when the way down ends at a leaf. */
  lemma AbsentSplits<N>(t: Tree<N>, k: int)
    requires Sorted(Values(t)) && Descend(Top, t, k).1.Leaf?
    ensures Before(Descend(Top, t, k).0) == Below(Values(t), k) && After(Descend(Top, t, k).0) == Above(Values(t), k)
    ensures Values(t) == Below(Values(t), k) + Above(Values(t), k)
    ensures forall x :: x in Values(t) ==> x.key != k
  {
    DescendRoot(t, k);
    var c := Descend(Top, t, k).0;
    Around(Before(c), [], After(c), k);
    assert Before(c) + [] + After(c) == Before(c) + After(c);
  }

  /** What addNode makes of the tree; id is the new node. */
  function Insert<N>(t: Tree<N>, v: Value, id: N, overrideMode: bool): Tree<N>
    requires !IsRed(t)
  {
    if t.Leaf? then Node(Leaf, false, id, v, Leaf)
    else
      var (c, n) := Descend(Top, t, v.key);
      PlugRoot(c, n);
      if n.Node? then (if overrideMode then Plug(c, n.(val := v)) else t)
      else FixInsert(c, Node(Leaf, true, id, v, Leaf))
  }

  /** addNode overrides the value with the same key or adds the new one in its place. */
  lemma InsertValues<N>(t: Tree<N>, v: Value, id: N, overrideMode: bool)
    requires Sorted(Values(t)) && !IsRed(t)
    ensures overrideMode || Descend(Top, t, v.key).1.Leaf? ==>
      Values(Insert(t, v, id, overrideMode)) == Below(Values(t), v.key) + [v] + Above(Values(t), v.key)
    ensures !overrideMode && Descend(Top, t, v.key).1.Node? ==> Insert(t, v, id, overrideMode) == t
    ensures Descend(Top, t, v.key).1.Leaf? <==> forall x :: x in Values(t) ==> x.key != v.key
  {
    hide Below, Above, Before, After, Sorted;
    var c, n := Descend(Top, t, v.key).0, Descend(Top, t, v.key).1;
    DescendRoot(t, v.key);
    if n.Leaf? {
      AbsentSplits(t, v.key);
      if t.Node? {
        PlugRoot(c, n);
        FixInsertValues(c, Node(Leaf, true, id, v, Leaf));
      }
    } else {
      FoundSplits(t, v.key);
      assert Values(t)[|Below(Values(t), v.key)|] == n.val;
      PlugValues(c, n.(val := v));
      Regroup(Before(c), Values(n.left), v, Values(n.right), After(c));
      assert Before(c) + (Values(n.left) + [v] + Values(n.right)) + After(c)
        == (Before(c) + Values(n.left)) + [v] + (Values(n.right) + After(c));
    }
  }

  lemma {:induction false} PartsOf(s: seq<Value>, k: int)
    ensures forall x :: x in Below(s, k) ==> x in s && x.key < k
    ensures forall x :: x in Above(s, k) ==> x in s && x.key > k
  {
    if s != [] { PartsOf(s[1..], k); }
  }

  lemma SortedJoin(a: seq<Value>, b: seq<Value>)
    requires Sorted(a) && Sorted(b) && forall x, y :: x in a && y in b ==> x.key < y.key
    ensures Sorted(a + b)
  {
  }

  lemma {:induction false} BelowSorted(s: seq<Value>, k: int)
    requires Sorted(s)
    ensures Sorted(Below(s, k))
  {
    if s != [] {
      BelowSorted(s[1..], k);
      PartsOf(s[1..], k);
      SortedJoin(if s[0].key < k then [s[0]] else [], Below(s[1..], k));
    }
  }

  lemma {:induction false} AboveSorted(s: seq<Value>, k: int)
    requires Sorted(s)
    ensures Sorted(Above(s, k))
  {
    if s != [] {
      AboveSorted(s[1..], k);
      PartsOf(s[1..], k);
      SortedJoin(if s[0].key > k then [s[0]] else [], Above(s[1..], k));
    }
  }

  lemma UpsertSorted(s: seq<Value>, k: int, v: Value)
    requires Sorted(s) && v.key == k
    ensures Sorted(Below(s, k) + [v] + Above(s, k)) && Sorted(Below(s, k) + Above(s, k))
  {
    PartsOf(s, k);
    BelowSorted(s, k);
    AboveSorted(s, k);
    SortedJoin(Below(s, k), [v]);
    SortedJoin(Below(s, k) + [v], Above(s, k));
    SortedJoin(Below(s, k), Above(s, k));
  }

  /** addNode keeps the order, the black root and the absence of red-red edges of any tree. */
  lemma InsertKeeps<N>(t: Tree<N>, v: Value, id: N, overrideMode: bool)
    requires Sorted(Values(t)) && NoRedRed(t) && !IsRed(t)
    ensures Sorted(Values(Insert(t, v, id, overrideMode)))
    ensures NoRedRed(Insert(t, v, id, overrideMode)) && !IsRed(Insert(t, v, id, overrideMode))
  {
    InsertValues(t, v, id, overrideMode);
    UpsertSorted(Values(t), v.key, v);
    var c, n := Descend(Top, t, v.key).0, Descend(Top, t, v.key).1;
    if t.Node? {
      PlugNoRedRed(c, n);
      PlugRoot(c, n);
      if n.Node? {
        PlugNoRedRed(c, n.(val := v));
        PlugRoot(c, n.(val := v));
      } else {
        FixInsertColours(c, Node(Leaf, true, id, v, Leaf));
      }
    }
  }

  /** On a red-black tree addNode gives a red-black tree again exactly when it overrides or
      when the climb from the new node recolours below no black uncle. */
  lemma InsertRedBlack<N>(t: Tree<N>, v: Value, id: N, overrideMode: bool)
    requires RedBlackTree(t)
    ensures RedBlackTree(Insert(t, v, id, overrideMode)) <==>
      Descend(Top, t, v.key).1.Node? || !MeetsBlackUncle(Descend(Top, t, v.key).0)
  {
    InsertKeeps(t, v, id, overrideMode);
    var c, n := Descend(Top, t, v.key).0, Descend(Top, t, v.key).1;
    PlugHeight(c, n);
    PlugRoot(c, n);
    PlugNoRedRed(c, n);
    if t.Node? {
      if n.Node? {
        PlugHeight(c, n.(val := v));
      } else {
        FixInsertHeight(c, Node(Leaf, true, id, v, Leaf));
      }
    }
  }

  // ---------- the tree of 1 to 8 ----------

  /** The tree after adding 1 to n in order to an empty one. */
  function OneTo(n: nat): (t: Tree<int>)
    ensures Coloured(t)
  {
    if n == 0 then Leaf else
      InsertKeeps(OneTo(n - 1), Value(n, 0), n, true);
      Insert(OneTo(n - 1), Value(n, 0), n, true)
  }

  function Black(l: Tree<int>, k: int, r: Tree<int>): Tree<int> { Node(l, false, k, Value(k, 0), r) }
  function Red(l: Tree<int>, k: int, r: Tree<int>): Tree<int> { Node(l, true, k, Value(k, 0), r) }

  /** One step up along the right spine. */
  function Right(red: bool, k: int, other: Tree<int>, up: Ctx<int>): Ctx<int> {
    InRight(red, k, Value(k, 0), other, up)
  }

  predicate RightSpine(c: Ctx<int>, k: int) { !c.Top? ==> c.InRight? && c.val.key < k && RightSpine(c.up, k) }

  lemma {:induction false} DescendSpine(c: Ctx<int>, t: Tree<int>, k: int)
    requires RightSpine(c, k)
    ensures Descend(Top, Plug(c, t), k) == Descend(c, t, k)
  {
    if !c.Top? { DescendSpine(c.up, Node(c.other, c.red, c.id, c.val, t), k); }
  }

  /** A key above all others goes to the end of the right spine. */
  lemma AddsLast(n: nat, c: Ctx<int>)
    requires OneTo(n) == Plug(c, Leaf) && !c.Top? && RightSpine(c, n + 1)
    ensures CtxRootBlack(c) && OneTo(n + 1) == FixInsert(c, Red(Leaf, n + 1, Leaf))
  {
    DescendSpine(c, Leaf, n + 1);
    PlugRoot(c, Leaf);
  }

  /** fixInsert below a black parent, at a missing uncle and at an uncle. */
  lemma FixInsertRound<N>(c: Ctx<N>, t: Tree<N>)
    requires t.Node? && CtxRootBlack(c)
    ensures !CtxRed(c) ==> FixInsert(c, t) == BlackRoot(Plug(c, t))
    ensures CtxRed(c) ==> !c.Top? && !c.up.Top?
    ensures CtxRed(c) && c.up.other.Leaf? ==> FixInsert(c, t) == BlackRoot(Plug(c.up.up, Straighten(c, t)))
    ensures CtxRed(c) && c.up.other.Node? ==>
      CtxRootBlack(c.up.up) && FixInsert(c, t) == FixInsert(c.up.up, Recolour(c, t))
  {
  }

  function OneToSeven(): Tree<int> {
    Black(Black(Leaf, 1, Leaf), 2, Red(Black(Leaf, 3, Leaf), 4, Black(Red(Leaf, 5, Leaf), 6, Red(Leaf, 7, Leaf))))
  }

  function OneToEight(): Tree<int> {
    Black(Black(Leaf, 1, Leaf), 2,
      Black(Black(Leaf, 3, Leaf), 4, Red(Black(Leaf, 5, Leaf), 6, Black(Leaf, 7, Red(Leaf, 8, Leaf)))))
  }

  // ---------- remove ----------

  /** The way to the smallest node of t, and that node. */
  function LeftCtx<N>(c: Ctx<N>, t: Tree<N>): Ctx<N>
    requires t.Node?
    decreases t
  {
    if t.left.Leaf? then c else LeftCtx(InLeft(t.red, t.id, t.val, t.right, c), t.left)
  }

  function Leftmost<N>(t: Tree<N>): (m: Tree<N>)
    requires t.Node?
    ensures m.Node? && m.left.Leaf?
    decreases t
  {
    if t.left.Leaf? then t else Leftmost(t.left)
  }

  lemma {:induction false} LeftCtxRules<N>(c: Ctx<N>, t: Tree<N>)
    requires t.Node? && NoRedRed(t) && CtxNoRedRed(c) && CtxRootBlack(c) && !(CtxRed(c) && t.red) && !c.Top?
    ensures CtxNoRedRed(LeftCtx(c, t)) && CtxRootBlack(LeftCtx(c, t)) && NoRedRed(Leftmost(t))
    ensures !(CtxRed(LeftCtx(c, t)) && Leftmost(t).red) && !LeftCtx(c, t).Top?
    ensures CtxHeight(LeftCtx(c, t), Height(Leftmost(t))) == CtxHeight(c, Height(t))
    decreases t
  {
    if t.left.Node? { LeftCtxRules(InLeft(t.red, t.id, t.val, t.right, c), t.left); }
  }

  lemma {:induction false} LeftCtxValues<N>(c: Ctx<N>, t: Tree<N>)
    requires t.Node?
    ensures Before(LeftCtx(c, t)) == Before(c)
    ensures Values(t) + After(c) == [Leftmost(t).val] + Values(Leftmost(t).right) + After(LeftCtx(c, t))
    decreases t
  {
    if t.left.Node? {
      LeftCtxValues(InLeft(t.red, t.id, t.val, t.right, c), t.left);
      assert Values(t.left) + ([t.val] + Values(t.right) + After(c))
        == Values(t.left) + [t.val] + Values(t.right) + After(c);
    } else {
      assert [] + [t.val] + Values(t.right) + After(c) == [t.val] + Values(t.right) + After(c);
    }
  }

  /** The context in which the smallest node of n.right takes the place of n. */
  function Successor<N>(c: Ctx<N>, n: Tree<N>): Ctx<N>
    requires n.Node? && n.right.Node?
  {
    LeftCtx(InRight(n.red, Leftmost(n.right).id, Leftmost(n.right).val, n.left, c), n.right)
  }

  /** Node n hangs below c in a tree with a black root and no red-red edge. */
  ghost predicate Removable<N>(c: Ctx<N>, n: Tree<N>) {
    n.Node? && NoRedRed(n) && CtxNoRedRed(c) && CtxRootBlack(c) && !(CtxRed(c) && n.red) && (c.Top? ==> !n.red)
  }

  /** Taking the successor's place leaves at most one edge to mend. */
  lemma SuccessorRules<N>(c: Ctx<N>, n: Tree<N>)
    requires Removable(c, n) && n.right.Node?
    ensures Loose(Successor(c, n), Leftmost(n.right).right) && !Successor(c, n).Top?
    ensures NoRedRed(Leftmost(n.right).right) && (Leftmost(n.right).red ==> !IsRed(Leftmost(n.right).right))
  {
    var m := Leftmost(n.right);
    LeftCtxRules(InRight(n.red, m.id, m.val, n.left, c), n.right);
  }

  /** With equal black heights the place is one black node short if the successor was black, else all heights stay. */
  lemma SuccessorHeights<N>(c: Ctx<N>, n: Tree<N>)
    requires Removable(c, n) && n.right.Node? && Height(n) >= 0 && CtxHeight(c, Height(n)) >= 0
    ensures !Leftmost(n.right).red ==> Short(Successor(c, n), Leftmost(n.right).right)
    ensures Leftmost(n.right).red ==> CtxHeight(Successor(c, n), Height(Leftmost(n.right).right)) >= 0
  {
    var m := Leftmost(n.right);
    var base := InRight(n.red, m.id, m.val, n.left, c);
    SuccessorRules(c, n);
    LeftCtxRules(base, n.right);
    assert CtxHeight(base, Height(n.right)) == CtxHeight(c, Height(n));
    assert CtxHeight(Successor(c, n), Height(m)) == CtxHeight(c, Height(n));
    if Height(m) == -1 { UnevenStays(Successor(c, n)); }
  }

  /** The place at which remove takes a node out, what hangs there then, and whether the node was black. */
  function Place<N>(c: Ctx<N>, n: Tree<N>): (Ctx<N>, Tree<N>, bool)
    requires n.Node?
  {
    if n.right.Leaf? then (c, n.left, !n.red) else (Successor(c, n), Leftmost(n.right).right, !Leftmost(n.right).red)
  }

  /** What remove makes of the tree when it finds n below c. */
  function RemoveAt<N>(c: Ctx<N>, n: Tree<N>): Fixed<N>
    requires Removable(c, n)
  {
    PlaceRules(c, n);
    if Place(c, n).2 then FixRemove(Place(c, n).0, Place(c, n).1)
      else Done(BlackRoot(Plug(Place(c, n).0, Place(c, n).1)))
  }

  /** What remove makes of any ordered tree with a black root and no red-red edge. */
  function Remove<N>(t: Tree<N>, k: int): Fixed<N>
    requires Coloured(t)
  {
    if Descend(Top, t, k).1.Leaf? then Done(t) else
      RemovableAt(t, k);
      RemoveAt(Descend(Top, t, k).0, Descend(Top, t, k).1)
  }

  lemma RemovableAt<N>(t: Tree<N>, k: int)
    requires Coloured(t) && Descend(Top, t, k).1.Node?
    ensures Removable(Descend(Top, t, k).0, Descend(Top, t, k).1)
  {
    PlugNoRedRed(Descend(Top, t, k).0, Descend(Top, t, k).1);
    PlugRoot(Descend(Top, t, k).0, Descend(Top, t, k).1);
  }

  lemma PlaceRules<N>(c: Ctx<N>, n: Tree<N>)
    requires Removable(c, n)
    ensures Loose(Place(c, n).0, Place(c, n).1) && NoRedRed(Place(c, n).1)
    ensures !Place(c, n).2 ==> !IsRed(Place(c, n).1)
  {
    if n.right.Node? { SuccessorRules(c, n); } else { assert NoRedRed(n.left); }
  }

  /** With equal black heights. */
  lemma PlaceHeights<N>(c: Ctx<N>, n: Tree<N>)
    requires Removable(c, n) && Height(n) >= 0 && CtxHeight(c, Height(n)) >= 0
    ensures Place(c, n).2 ==> Short(Place(c, n).0, Place(c, n).1)
    ensures !Place(c, n).2 ==> CtxHeight(Place(c, n).0, Height(Place(c, n).1)) >= 0
  {
    PlaceRules(c, n);
    if n.right.Node? { SuccessorHeights(c, n); }
  }

  lemma PlaceValues<N>(c: Ctx<N>, n: Tree<N>)
    requires n.Node?
    ensures Before(Place(c, n).0) + Values(Place(c, n).1) + After(Place(c, n).0)
      == Before(c) + Values(n.left) + (Values(n.right) + After(c))
  {
    if n.right.Node? { SuccessorValues(c, n); } else { assert Values(n.right) + After(c) == After(c); }
  }

  /** remove of a black node whose place holds no red node, above which the climb comes to a missing sibling. */
  predicate RemoveFails<N>(t: Tree<N>, k: int) {
    Descend(Top, t, k).1.Node? && PlaceFails(Place(Descend(Top, t, k).0, Descend(Top, t, k).1))
  }

  predicate PlaceFails<N>(p: (Ctx<N>, Tree<N>, bool)) { p.2 && !IsRed(p.1) && MeetsNoSibling(p.0) }

  /** On any tree that addNode can leave, remove meets a null sibling exactly then. Either way the value with the
      key is out of the tree, which keeps its order, its black root and no red-red edge. */
  lemma RemoveIs<N>(t: Tree<N>, k: int)
    requires Coloured(t)
    ensures Remove(t, k).NoSibling? <==> RemoveFails(t, k)
    ensures Coloured(Remove(t, k).tree) && Values(Remove(t, k).tree) == Below(Values(t), k) + Above(Values(t), k)
  {
    var c, n := Descend(Top, t, k).0, Descend(Top, t, k).1;
    UpsertSorted(Values(t), k, Value(k, 0));
    if n.Leaf? {
      AbsentSplits(t, k);
    } else {
      RemovableAt(t, k);
      FoundSplits(t, k);
      RemoveAtIs(c, n);
    }
  }

  lemma RemoveAtIs<N>(c: Ctx<N>, n: Tree<N>)
    requires Removable(c, n)
    ensures RemoveAt(c, n).NoSibling? <==> PlaceFails(Place(c, n))
    ensures NoRedRed(RemoveAt(c, n).tree) && !IsRed(RemoveAt(c, n).tree)
    ensures Values(RemoveAt(c, n).tree) == Before(c) + Values(n.left) + (Values(n.right) + After(c))
  {
    hide Values, Before, After, NoRedRed, CtxNoRedRed, MeetsNoSibling, FixRemove, Place, Loose;
    var (c1, t1, black) := Place(c, n);
    PlaceRules(c, n);
    PlaceValues(c, n);
    if black {
      FixRemoveFails(c1, t1);
      FixRemoveColours(c1, t1);
      FixRemoveValues(c1, t1);
    } else {
      LoosePlug(c1, t1);
      PlugValues(c1, t1);
      BlackRootValues(Plug(c1, t1));
    }
  }

  lemma LoosePlug<N>(c: Ctx<N>, t: Tree<N>)
    requires Loose(c, t) && NoRedRed(t) && !IsRed(t)
    ensures NoRedRed(BlackRoot(Plug(c, t))) && !IsRed(BlackRoot(Plug(c, t)))
  {
    PlugColours(c, t);
  }

  /** On a red-black tree remove takes out exactly the value with key k and keeps every rule. */
  lemma RemoveRedBlack<N>(t: Tree<N>, k: int)
    requires RedBlackTree(t)
    ensures Remove(t, k).Done? && RedBlackTree(Remove(t, k).tree)
    ensures Values(Remove(t, k).tree) == Below(Values(t), k) + Above(Values(t), k)
  {
    var c, n := Descend(Top, t, k).0, Descend(Top, t, k).1;
    RemoveIs(t, k);
    if n.Node? {
      RemovableAt(t, k);
      PlugHeight(c, n);
      if Height(n) == -1 { UnevenStays(c); }
      RemoveAtHeight(c, n);
    }
  }

  lemma RemoveAtHeight<N>(c: Ctx<N>, n: Tree<N>)
    requires Removable(c, n) && Height(n) >= 0 && CtxHeight(c, Height(n)) >= 0
    ensures RemoveAt(c, n).Done? && Height(RemoveAt(c, n).tree) >= 0
  {
    hide NoRedRed, CtxNoRedRed, FixRemove, Place;
    var (c1, t1, black) := Place(c, n);
    PlaceRules(c, n);
    PlaceHeights(c, n);
    if black { FixRemoveRules(c1, t1); } else { PlugRules(c1, t1); }
  }

  lemma SuccessorValues<N>(c: Ctx<N>, n: Tree<N>)
    requires n.Node? && n.right.Node?
    ensures Before(Successor(c, n)) + Values(Leftmost(n.right).right) + After(Successor(c, n))
      == Before(c) + Values(n.left) + (Values(n.right) + After(c))
  {
    var m := Leftmost(n.right);
    var base := InRight(n.red, m.id, m.val, n.left, c);
    var c' := Successor(c, n);
    LeftCtxValues(base, n.right);
    assert Before(base) == Before(c) + Values(n.left) + [m.val] && After(base) == After(c);
    assert (Before(c) + Values(n.left) + [m.val]) + Values(m.right) + After(c')
      == Before(c) + Values(n.left) + ([m.val] + Values(m.right) + After(c'));
  }

  // ---------- the input that meets a null sibling ----------

  // OneTo(n) for n up to 8, each seen from the end of its right spine.

  lemma Grows1()
    ensures OneTo(1) == Black(Leaf, 1, Leaf) == Plug(Right(false, 1, Leaf, Top), Leaf)
  {
    assert OneTo(0) == Leaf;
  }

  lemma Grows2()
    ensures OneTo(2) == Plug(Spine2(), Leaf)
  {
    hide OneTo;
    Grows1();
    AddsLast(1, Right(false, 1, Leaf, Top));
  }

  function Spine2(): Ctx<int> { Right(true, 2, Leaf, Right(false, 1, Leaf, Top)) }
  function Spine3(): Ctx<int> { Right(true, 3, Leaf, Right(false, 2, Red(Leaf, 1, Leaf), Top)) }
  function Spine4(): Ctx<int> { Right(true, 4, Leaf, Right(false, 3, Leaf, Base())) }
  function Spine5(): Ctx<int> { Right(true, 5, Leaf, Right(false, 4, Red(Leaf, 3, Leaf), Base())) }
  function Base(): Ctx<int> { Right(false, 2, Black(Leaf, 1, Leaf), Top) }
  function Second(): Ctx<int> { Right(true, 4, Black(Leaf, 3, Leaf), Base()) }
  function Spine6(): Ctx<int> { Right(true, 6, Leaf, Right(false, 5, Leaf, Second())) }
  function Spine7(): Ctx<int> { Right(true, 7, Leaf, Right(false, 6, Red(Leaf, 5, Leaf), Second())) }

  lemma Grows3()
    ensures OneTo(3) == Plug(Spine3(), Leaf)
  {
    hide OneTo;
    Grows2();
    AddsLast(2, Spine2());
    FixInsertRound(Spine2(), Red(Leaf, 3, Leaf));
  }

  lemma Grows4()
    ensures OneTo(4) == Plug(Spine4(), Leaf)
  {
    hide OneTo, FixInsert;
    Grows3();
    AddsLast(3, Spine3());
    FixInsertRound(Spine3(), Red(Leaf, 4, Leaf));
    FixInsertRound(Top, Recolour(Spine3(), Red(Leaf, 4, Leaf)));
  }

  lemma Grows5()
    ensures OneTo(5) == Plug(Spine5(), Leaf)
  {
    hide OneTo, FixInsert;
    Grows4();
    assert RightSpine(Spine4().up, 5);
    AddsLast(4, Spine4());
    FixInsertRound(Spine4(), Red(Leaf, 5, Leaf));
  }

  lemma Grows6()
    ensures OneTo(6) == Plug(Spine6(), Leaf)
  {
    hide OneTo, FixInsert;
    Grows5();
    assert RightSpine(Spine5().up, 6);
    AddsLast(5, Spine5());
    FixInsertRound(Spine5(), Red(Leaf, 6, Leaf));
    FixInsertRound(Base(), Recolour(Spine5(), Red(Leaf, 6, Leaf)));
    assert Plug(Spine6(), Leaf) == Plug(Second().up, Raise(Second(), Black(Leaf, 5, Red(Leaf, 6, Leaf))));
  }

  lemma Grows7()
    ensures OneTo(7) == Plug(Spine7(), Leaf) == OneToSeven()
  {
    hide OneTo, FixInsert;
    Grows6();
    assert RightSpine(Second(), 7);
    AddsLast(6, Spine6());
    FixInsertRound(Spine6(), Red(Leaf, 7, Leaf));
    assert Plug(Spine7(), Leaf) == Plug(Second(), Black(Red(Leaf, 5, Leaf), 6, Red(Leaf, 7, Leaf)));
  }

  lemma Grows8()
    ensures OneTo(8) == OneToEight()
  {
    hide OneTo, FixInsert;
    Grows7();
    assert RightSpine(Second(), 8);
    AddsLast(7, Spine7());
    var t := Red(Leaf, 8, Leaf);
    FixInsertRound(Spine7(), t);
    FixInsertRound(Second(), Recolour(Spine7(), t));
    FixInsertRound(Top, Recolour(Second(), Recolour(Spine7(), t)));
  }

  /** Adding 1 to 7 in order keeps all rules, and 8 is the first key that meets a black uncle. */
  lemma EightLosesTheHeight()
    ensures RedBlackTree(OneTo(7)) && !RedBlackTree(OneTo(8))
  {
    Grows7();
    Grows8();
  }

  /** After 1 to 8 have been added in order and 1 removed, removing 3 meets a null sibling. */
  lemma ThreeMeetsNoSibling()
    ensures Remove(OneTo(8), 1).Done? && Coloured(Remove(OneTo(8), 1).tree)
    ensures Remove(Remove(OneTo(8), 1).tree, 3).NoSibling?
  {
    hide FixInsert, OneTo;
    Grows8();
    RemoveIs(OneTo(8), 1);
    OneRemoved();
    RemoveIs(Remove(OneTo(8), 1).tree, 3);
    var t := WithoutOne();
    assert Descend(Top, t, 3).0 == InRight(false, 2, Value(2, 0), Leaf, InLeft(false, 4, Value(4, 0), t.right, Top));
    assert RemoveFails(t, 3);
  }

  function WithoutOne(): Tree<int> {
    Black(Black(Leaf, 2, Black(Leaf, 3, Leaf)), 4, Black(Black(Leaf, 5, Leaf), 6, Black(Leaf, 7, Red(Leaf, 8, Leaf))))
  }

  lemma OneRemoved()
    requires Coloured(OneToEight())
    ensures Remove(OneToEight(), 1) == Done(WithoutOne())
  {
    var t := OneToEight();
    var c := InLeft(false, 2, Value(2, 0), t.right, Top);
    assert Descend(Top, t, 1) == (c, Black(Leaf, 1, Leaf));
    assert FarRed(c) && !c.other.red;
  }
}
