/**
 Red-black trees as values: the tree below a node, the context above it, and what the two
 together have to satisfy. Order is a matter of the in-order sequence, which rotations and
 recolourings leave alone; balance is a matter of colours and black heights.
 */
module RedBlack {

  datatype Color = Red | Black

  datatype Tree<T> = Leaf | Node(left: Tree<T>, elem: T, color: Color, right: Tree<T>)

  /** The path from a subtree up to the root, with the siblings met on the way. */
  datatype Ctx<T> =
    | Top
    | InLeft(up: Ctx<T>, elem: T, color: Color, right: Tree<T>)
    | InRight(up: Ctx<T>, left: Tree<T>, elem: T, color: Color)

  /** The tree one level up: the hole of the innermost node of `c` filled with `t`. */
  ghost function Close<T>(c: Ctx<T>, t: Tree<T>): (r: Tree<T>)
    requires c != Top
    ensures r.Node? && r.elem == c.elem && r.color == c.color
  {
    if c.InLeft? then Node(t, c.elem, c.color, c.right) else Node(c.left, c.elem, c.color, t)
  }

  ghost function Plug<T>(c: Ctx<T>, t: Tree<T>): Tree<T> {
    match c
    case Top => t
    case InLeft(up, n, k, r) => Plug(up, Node(t, n, k, r))
    case InRight(up, l, n, k) => Plug(up, Node(l, n, k, t))
  }

  // ----- Order -----

  ghost function InOrder<T>(t: Tree<T>): seq<T> {
    match t
    case Leaf => []
    case Node(l, n, _, r) => InOrder(l) + [n] + InOrder(r)
  }

  /** What precedes the hole of a context in order. */
  ghost function Before<T>(c: Ctx<T>): seq<T> {
    match c
    case Top => []
    case InLeft(up, _, _, _) => Before(up)
    case InRight(up, l, n, _) => Before(up) + InOrder(l) + [n]
  }

  /** What follows the hole of a context in order. */
  ghost function After<T>(c: Ctx<T>): seq<T> {
    match c
    case Top => []
    case InLeft(up, n, _, r) => [n] + InOrder(r) + After(up)
    case InRight(up, _, _, _) => After(up)
  }

  lemma Regroup<T>(a: seq<T>, b: seq<T>, x: T, c: seq<T>, d: seq<T>)
    ensures a + (b + [x] + c) + d == a + b + ([x] + c + d)
    ensures a + (b + [x] + c) + d == a + b + [x] + c + d
  {
  }

  lemma {:induction false} PlugInOrder<T>(c: Ctx<T>, t: Tree<T>)
    ensures InOrder(Plug(c, t)) == Before(c) + InOrder(t) + After(c)
    decreases c
  {
    match c
    case Top =>
    case InLeft(up, n, k, r) =>
      PlugInOrder(up, Node(t, n, k, r));
      Regroup(Before(up), InOrder(t), n, InOrder(r), After(up));
    case InRight(up, l, n, k) =>
      PlugInOrder(up, Node(l, n, k, t));
      Regroup(Before(up), InOrder(l), n, InOrder(t), After(up));
  }

  // ----- Balance -----

  predicate IsRed<T>(t: Tree<T>) {
    t.Node? && t.color == Red
  }

  /** No red node has a red child, and every path down has `h` black nodes. */
  ghost predicate Good<T>(t: Tree<T>, h: nat) {
    match t
    case Leaf => h == 0
    case Node(l, _, Red, r) => !IsRed(l) && !IsRed(r) && Good(l, h) && Good(r, h)
    case Node(l, _, Black, r) => h > 0 && Good(l, h - 1) && Good(r, h - 1)
  }

  /** The node above the hole exists and is black. */
  predicate BlackAbove<T>(c: Ctx<T>) {
    c != Top && c.color == Black
  }

  predicate RedAbove<T>(c: Ctx<T>) {
    c != Top && c.color == Red
  }

  /**
   A context whose hole asks for black height `h`: filling it with a good tree of that height,
   whose root is not red below a red node, gives a good tree with a black root.
   */
  ghost predicate GoodCtx<T>(c: Ctx<T>, h: nat) {
    match c
    case Top => true
    case InLeft(up, _, Red, r) => BlackAbove(up) && !IsRed(r) && Good(r, h) && GoodCtx(up, h)
    case InLeft(up, _, Black, r) => Good(r, h) && GoodCtx(up, h + 1)
    case InRight(up, l, _, Red) => BlackAbove(up) && !IsRed(l) && Good(l, h) && GoodCtx(up, h)
    case InRight(up, l, _, Black) => Good(l, h) && GoodCtx(up, h + 1)
  }

  /** A red-black tree: good for some black height, with a black root. */
  ghost predicate Balanced<T>(t: Tree<T>) {
    !IsRed(t) && exists h: nat :: Good(t, h)
  }

  lemma {:induction false} PlugBalanced<T>(c: Ctx<T>, t: Tree<T>, h: nat)
    requires GoodCtx(c, h) && Good(t, h)
    requires IsRed(t) ==> BlackAbove(c)
    ensures Balanced(Plug(c, t))
    decreases c
  {
    match c
    case Top =>
    case InLeft(up, n, k, r) => PlugBalanced(up, Node(t, n, k, r), if k == Red then h else h + 1);
    case InRight(up, l, n, k) => PlugBalanced(up, Node(l, n, k, t), if k == Red then h else h + 1);
  }

  ghost function Blacken<T>(t: Tree<T>): Tree<T> {
    if t.Leaf? then Leaf else t.(color := Black)
  }

  // ----- Nodes -----

  ghost function Nodes<T>(t: Tree<T>): set<T> {
    match t
    case Leaf => {}
    case Node(l, n, _, r) => Nodes(l) + {n} + Nodes(r)
  }

  ghost function CtxNodes<T>(c: Ctx<T>): set<T> {
    match c
    case Top => {}
    case InLeft(up, n, _, r) => CtxNodes(up) + {n} + Nodes(r)
    case InRight(up, l, n, _) => CtxNodes(up) + {n} + Nodes(l)
  }

  /** Every node occurs once in the tree. */
  ghost predicate Distinct<T>(t: Tree<T>) {
    match t
    case Leaf => true
    case Node(l, n, _, r) => Distinct(l) && Distinct(r) && n !in Nodes(l) && n !in Nodes(r) && Nodes(l) !! Nodes(r)
  }

  ghost predicate CtxDistinct<T>(c: Ctx<T>) {
    match c
    case Top => true
    case InLeft(up, n, _, r) =>
      CtxDistinct(up) && Distinct(r) && n !in CtxNodes(up) && n !in Nodes(r) && CtxNodes(up) !! Nodes(r)
    case InRight(up, l, n, _) =>
      CtxDistinct(up) && Distinct(l) && n !in CtxNodes(up) && n !in Nodes(l) && CtxNodes(up) !! Nodes(l)
  }

  /** Tree and context share no node, and each has every node once. */
  ghost predicate Apart<T>(c: Ctx<T>, t: Tree<T>) {
    CtxDistinct(c) && Distinct(t) && CtxNodes(c) !! Nodes(t)
  }

  lemma {:induction false} PlugNodes<T>(c: Ctx<T>, t: Tree<T>)
    ensures Nodes(Plug(c, t)) == CtxNodes(c) + Nodes(t)
    ensures Distinct(Plug(c, t)) <==> Apart(c, t)
    decreases c
  {
    match c
    case Top =>
    case InLeft(up, n, k, r) => PlugNodes(up, Node(t, n, k, r));
    case InRight(up, l, n, k) => PlugNodes(up, Node(l, n, k, t));
  }

  // ----- Rotations -----

  ghost function RotatedLeft<T>(t: Tree<T>): Tree<T>
    requires t.Node? && t.right.Node?
  {
    Node(Node(t.left, t.elem, t.color, t.right.left), t.right.elem, t.right.color, t.right.right)
  }

  ghost function RotatedRight<T>(t: Tree<T>): Tree<T>
    requires t.Node? && t.left.Node?
  {
    Node(t.left.left, t.left.elem, t.left.color, Node(t.left.right, t.elem, t.color, t.right))
  }

  lemma Regroup3<T>(a: seq<T>, x: T, b: seq<T>, y: T, d: seq<T>)
    ensures (a + [x] + b) + [y] + d == a + [x] + (b + [y] + d)
  {
  }

  lemma RotatedLeftKeeps<T>(t: Tree<T>)
    requires t.Node? && t.right.Node?
    ensures InOrder(RotatedLeft(t)) == InOrder(t)
    ensures Nodes(RotatedLeft(t)) == Nodes(t)
    ensures Distinct(t) ==> Distinct(RotatedLeft(t))
  {
    SameParts(t.left, t.elem, t.color, t.right.left, t.right.elem, t.right.color, t.right.right);
  }

  lemma RotatedRightKeeps<T>(t: Tree<T>)
    requires t.Node? && t.left.Node?
    ensures InOrder(RotatedRight(t)) == InOrder(t)
    ensures Nodes(RotatedRight(t)) == Nodes(t)
    ensures Distinct(t) ==> Distinct(RotatedRight(t))
  {
    SameParts(t.left.left, t.left.elem, t.left.color, t.left.right, t.elem, t.color, t.right);
  }

  /** Three subtrees and two elements make the same sequence whichever element is on top. */
  lemma SameParts<T>(a: Tree<T>, x: T, k: Color, b: Tree<T>, y: T, j: Color, d: Tree<T>)
    ensures var s, t := Node(Node(a, x, k, b), y, j, d), Node(a, x, k, Node(b, y, j, d));
            InOrder(s) == InOrder(t) && Nodes(s) == Nodes(t) && (Distinct(s) <==> Distinct(t))
  {
    var u, v := Node(a, x, k, b), Node(b, y, j, d);
    assert InOrder(u) == InOrder(a) + [x] + InOrder(b) && InOrder(v) == InOrder(b) + [y] + InOrder(d);
    Regroup3(InOrder(a), x, InOrder(b), y, InOrder(d));
    assert Nodes(u) == Nodes(a) + {x} + Nodes(b) && Nodes(v) == Nodes(b) + {y} + Nodes(d);
    assert Distinct(u) <==> Distinct(a) && Distinct(b) && x !in Nodes(a) && x !in Nodes(b) && Nodes(a) !! Nodes(b);
    assert Distinct(v) <==> Distinct(b) && Distinct(d) && y !in Nodes(b) && y !in Nodes(d) && Nodes(b) !! Nodes(d);
  }

  // ----- Repair after insertion -----

  ghost function Depth<T>(c: Ctx<T>): nat {
    if c.Top? then 0 else 1 + Depth(c.up)
  }

  /**
   One round of the insertion repair, for a red node `t` whose red parent is a left child: either
   the problem moves two levels up, or one or two rotations settle it.
   */
  ghost function InsertRoundLeft<T>(c: Ctx<T>, t: Tree<T>): (Ctx<T>, Tree<T>)
    requires t.Node? && RedAbove(c) && c.up.InLeft?
  {
    var tp, g, u := Close(c, t), c.up.elem, c.up.right;
    if IsRed(u) then (c.up.up, Node(Blacken(tp), g, Red, Blacken(u)))
    else
      var tq := if c.InRight? then RotatedLeft(tp) else tp;
      (InLeft(c.up.up, tq.elem, Black, Node(tq.right, g, Red, u)), tq.left)
  }

  /** The mirror image: the red parent is a right child. */
  ghost function InsertRoundRight<T>(c: Ctx<T>, t: Tree<T>): (Ctx<T>, Tree<T>)
    requires t.Node? && RedAbove(c) && c.up.InRight?
  {
    var tp, g, u := Close(c, t), c.up.elem, c.up.left;
    if IsRed(u) then (c.up.up, Node(Blacken(u), g, Red, Blacken(tp)))
    else
      var tq := if c.InLeft? then RotatedRight(tp) else tp;
      (InRight(c.up.up, Node(u, g, Red, tq.left), tq.elem, Black), tq.right)
  }

  /** The red node `t` may have a red parent, but nothing else is wrong. */
  ghost predicate InsertPending<T>(c: Ctx<T>, t: Tree<T>) {
    IsRed(t) && exists h: nat :: GoodCtx(c, h) && Good(t, h)
  }

  lemma InsertRoundLeftPending<T>(c: Ctx<T>, t: Tree<T>)
    requires InsertPending(c, t) && RedAbove(c) && c.up.InLeft?
    ensures var (c', t') := InsertRoundLeft(c, t); InsertPending(c', t') && Depth(c') < Depth(c)
  {
    var h: nat :| GoodCtx(c, h) && Good(t, h);
    var (c', t') := InsertRoundLeft(c, t);
    assert Depth(c) == 2 + Depth(c.up.up);
    assert BlackAbove(c.up) && GoodCtx(c.up, h);
    assert Good(c.up.right, h) && GoodCtx(c.up.up, h + 1);
    if IsRed(c.up.right) {
      assert Good(Blacken(c.up.right), h + 1);
      assert Good(Blacken(Close(c, t)), h + 1);
      assert GoodCtx(c', h + 1) && Good(t', h + 1);
    } else {
      assert Good(c'.right, h) && Good(t', h);
      assert GoodCtx(c', h) && Good(t', h);
    }
  }

  lemma InsertRoundRightPending<T>(c: Ctx<T>, t: Tree<T>)
    requires InsertPending(c, t) && RedAbove(c) && c.up.InRight?
    ensures var (c', t') := InsertRoundRight(c, t); InsertPending(c', t') && Depth(c') < Depth(c)
  {
    var h: nat :| GoodCtx(c, h) && Good(t, h);
    var (c', t') := InsertRoundRight(c, t);
    assert Depth(c) == 2 + Depth(c.up.up);
    assert BlackAbove(c.up) && GoodCtx(c.up, h);
    assert Good(c.up.left, h) && GoodCtx(c.up.up, h + 1);
    if IsRed(c.up.left) {
      assert Good(Blacken(c.up.left), h + 1);
      assert Good(Blacken(Close(c, t)), h + 1);
      assert GoodCtx(c', h + 1) && Good(t', h + 1);
    } else {
      assert Good(c'.left, h) && Good(t', h);
      assert GoodCtx(c', h) && Good(t', h);
    }
  }

  lemma PlugSame<T>(c: Ctx<T>, t: Tree<T>, u: Tree<T>)
    requires InOrder(t) == InOrder(u)
    ensures InOrder(Plug(c, t)) == InOrder(Plug(c, u))
  {
    PlugInOrder(c, t);
    PlugInOrder(c, u);
  }

  lemma InOrderOf<T>(l: Tree<T>, n: T, k: Color, r: Tree<T>)
    ensures InOrder(Node(l, n, k, r)) == InOrder(l) + [n] + InOrder(r)
  {
  }

  lemma InsertRoundLeftOrder<T>(c: Ctx<T>, t: Tree<T>)
    requires t.Node? && RedAbove(c) && c.up.InLeft?
    ensures var (c', t') := InsertRoundLeft(c, t); InOrder(Plug(c', t')) == InOrder(Plug(c, t))
  {
    var (c', t') := InsertRoundLeft(c, t);
    var tp, g, u := Close(c, t), c.up.elem, c.up.right;
    var tg := Close(c.up, tp);
    assert Plug(c, t) == Plug(c.up, tp) == Plug(c.up.up, tg);
    if IsRed(u) {
      InOrderOf(tp.left, tp.elem, Black, tp.right);
      InOrderOf(u.left, u.elem, Black, u.right);
      PlugSame(c.up.up, tg, t');
    } else {
      if c.InRight? {
        RotatedLeftKeeps(tp);
      }
      var tq := if c.InRight? then RotatedLeft(tp) else tp;
      InOrderOf(tq, g, Black, u);
      RotatedRightKeeps(Node(tq, g, Red, u));
      assert InOrder(Close(c', t')) == InOrder(RotatedRight(Node(tq, g, Red, u)));
      PlugSame(c.up.up, tg, Close(c', t'));
    }
  }

  lemma InsertRoundRightOrder<T>(c: Ctx<T>, t: Tree<T>)
    requires t.Node? && RedAbove(c) && c.up.InRight?
    ensures var (c', t') := InsertRoundRight(c, t); InOrder(Plug(c', t')) == InOrder(Plug(c, t))
  {
    var (c', t') := InsertRoundRight(c, t);
    var tp, g, u := Close(c, t), c.up.elem, c.up.left;
    var tg := Close(c.up, tp);
    assert Plug(c, t) == Plug(c.up, tp) == Plug(c.up.up, tg);
    if IsRed(u) {
      InOrderOf(tp.left, tp.elem, Black, tp.right);
      InOrderOf(u.left, u.elem, Black, u.right);
      PlugSame(c.up.up, tg, t');
    } else {
      if c.InLeft? {
        RotatedRightKeeps(tp);
      }
      var tq := if c.InLeft? then RotatedRight(tp) else tp;
      InOrderOf(u, g, Black, tq);
      RotatedLeftKeeps(Node(u, g, Red, tq));
      assert InOrder(Close(c', t')) == InOrder(RotatedLeft(Node(u, g, Red, tq)));
      PlugSame(c.up.up, tg, Close(c', t'));
    }
  }

  /** The nodes of a tree are the elements of its in-order sequence. */
  lemma {:induction false} NodesInOrder<T>(t: Tree<T>)
    ensures forall x :: x in Nodes(t) ==> x in InOrder(t)
    ensures forall x :: x in InOrder(t) ==> x in Nodes(t)
  {
    if t.Node? {
      NodesInOrder(t.left);
      NodesInOrder(t.right);
    }
  }

  /** Once the parent is not red any more, painting the root black leaves nothing wrong. */
  lemma InsertSettled<T>(c: Ctx<T>, t: Tree<T>)
    requires InsertPending(c, t) && !RedAbove(c)
    ensures Balanced(Blacken(Plug(c, t)))
  {
    var h: nat :| GoodCtx(c, h) && Good(t, h);
    if c.Top? {
      assert Good(Blacken(t), h + 1);
    } else {
      PlugBalanced(c, t, h);
    }
  }

  lemma BlackenOrder<T>(t: Tree<T>)
    ensures InOrder(Blacken(t)) == InOrder(t)
  {
  }

  // ----- Descent -----

  /** A good tree in a good context: what the descent from the root meets. */
  ghost predicate Sound<T>(c: Ctx<T>, t: Tree<T>) {
    (IsRed(t) ==> BlackAbove(c)) && exists h: nat :: GoodCtx(c, h) && Good(t, h)
  }

  lemma SoundDown<T>(c: Ctx<T>, t: Tree<T>)
    requires Sound(c, t) && t.Node?
    ensures Sound(InLeft(c, t.elem, t.color, t.right), t.left)
    ensures Sound(InRight(c, t.left, t.elem, t.color), t.right)
  {
    var h: nat :| GoodCtx(c, h) && Good(t, h);
    var h' := if t.color == Red then h else h - 1;
    assert GoodCtx(InLeft(c, t.elem, t.color, t.right), h') && Good(t.left, h');
    assert GoodCtx(InRight(c, t.left, t.elem, t.color), h') && Good(t.right, h');
  }

  /** A new red leaf in an empty place of a sound tree is all that can be wrong. */
  lemma SoundInsert<T>(c: Ctx<T>, x: T)
    requires Sound(c, Leaf)
    ensures InsertPending(c, Node(Leaf, x, Red, Leaf))
  {
    var t: Tree<T> := Node(Leaf, x, Red, Leaf);
    var h: nat :| GoodCtx(c, h) && Good<T>(Leaf, h);
    assert GoodCtx(c, 0) && Good(t, 0);
  }

  // ----- Repair after removal -----

  /** `t` is one black node short of height `h + 1`, or would reach it by having its root painted black. */
  ghost predicate Short<T>(t: Tree<T>, h: nat) {
    if IsRed(t) then Good(t.left, h) && Good(t.right, h) else Good(t, h)
  }

  /** The tree `t` is one black node short of what its context asks for, and nothing else is wrong. */
  ghost predicate RemovePending<T>(c: Ctx<T>, t: Tree<T>) {
    exists h: nat :: GoodCtx(c, h + 1) && Short(t, h)
  }

  /** A red sibling is rotated above the parent, which brings a black one next to the short tree. */
  ghost function SiblingLeft<T>(c: Ctx<T>): Ctx<T>
    requires c.InLeft?
  {
    var w := c.right;
    if IsRed(w) then InLeft(InLeft(c.up, w.elem, Black, w.right), c.elem, Red, w.left) else c
  }

  ghost function SiblingRight<T>(c: Ctx<T>): Ctx<T>
    requires c.InRight?
  {
    var w := c.left;
    if IsRed(w) then InRight(InRight(c.up, w.left, w.elem, Black), w.right, c.elem, Red) else c
  }

  /** Whether the sibling can give up its black colour. */
  predicate BlackNephews<T>(w: Tree<T>)
    requires w.Node?
  {
    !IsRed(w.left) && !IsRed(w.right)
  }

  /** The subtree of the parent after the black sibling has become red, or has been rotated above it. */
  ghost function RemoveRoundLeft<T>(c: Ctx<T>, t: Tree<T>): (r: Tree<T>)
    requires c.InLeft? && c.right.Node? && !IsRed(c.right)
    ensures r.Node?
  {
    var w, p, k := c.right, c.elem, c.color;
    if BlackNephews(w) then Node(t, p, k, w.(color := Red))
    else
      var v := if IsRed(w.right) then w else RotatedRight(w.(left := Blacken(w.left), color := Red));
      Node(Node(t, p, Black, v.left), v.elem, k, Blacken(v.right))
  }

  ghost function RemoveRoundRight<T>(c: Ctx<T>, t: Tree<T>): (r: Tree<T>)
    requires c.InRight? && c.left.Node? && !IsRed(c.left)
    ensures r.Node?
  {
    var w, p, k := c.left, c.elem, c.color;
    if BlackNephews(w) then Node(w.(color := Red), p, k, t)
    else
      var v := if IsRed(w.left) then w else RotatedLeft(w.(right := Blacken(w.right), color := Red));
      Node(Blacken(v.left), v.elem, k, Node(v.right, p, Black, t))
  }

  lemma SiblingLeftPending<T>(c: Ctx<T>, t: Tree<T>)
    requires RemovePending(c, t) && c.InLeft?
    ensures c.right.Node?
    ensures var c' := SiblingLeft(c); RemovePending(c', t) && c'.InLeft? && c'.right.Node? && !IsRed(c'.right)
    ensures IsRed(c.right) ==> c.color == Black
  {
    var h: nat :| GoodCtx(c, h + 1) && Short(t, h);
    assert Good(c.right, h + 1);
    if IsRed(c.right) {
      assert Good(c.right.left, h + 1) && Good(c.right.right, h + 1) && GoodCtx(c.up, h + 2);
      assert GoodCtx(SiblingLeft(c).up, h + 1);
      assert GoodCtx(SiblingLeft(c), h + 1) && Short(t, h);
    }
  }

  lemma SiblingRightPending<T>(c: Ctx<T>, t: Tree<T>)
    requires RemovePending(c, t) && c.InRight?
    ensures c.left.Node?
    ensures var c' := SiblingRight(c); RemovePending(c', t) && c'.InRight? && c'.left.Node? && !IsRed(c'.left)
    ensures IsRed(c.left) ==> c.color == Black
  {
    var h: nat :| GoodCtx(c, h + 1) && Short(t, h);
    assert Good(c.left, h + 1);
    if IsRed(c.left) {
      assert Good(c.left.left, h + 1) && Good(c.left.right, h + 1) && GoodCtx(c.up, h + 2);
      assert GoodCtx(SiblingRight(c).up, h + 1);
      assert GoodCtx(SiblingRight(c), h + 1) && Short(t, h);
    }
  }

  lemma RemoveRoundLeftPending<T>(c: Ctx<T>, t: Tree<T>)
    requires RemovePending(c, t) && !IsRed(t) && c.InLeft? && c.right.Node? && !IsRed(c.right)
    ensures BlackNephews(c.right) ==> RemovePending(c.up, RemoveRoundLeft(c, t))
    ensures !BlackNephews(c.right) ==> Sound(c.up, RemoveRoundLeft(c, t))
  {
    var h: nat :| GoodCtx(c, h + 1) && Short(t, h);
    var w, r := c.right, RemoveRoundLeft(c, t);
    assert Good(t, h) && Good(w, h + 1);
    assert Good(w.left, h) && Good(w.right, h);
    var h' := if c.color == Red then h else h + 1;
    assert GoodCtx(c.up, h' + 1);
    if BlackNephews(w) {
      assert Good(w.(color := Red), h);
      assert Short(r, h');
    } else {
      if !IsRed(w.right) {
        assert Good(w.left.left, h) && Good(w.left.right, h);
      }
      assert Good(r.left, h + 1) && Good(r.right, h + 1);
      assert Good(r, h' + 1);
    }
  }

  lemma RemoveRoundRightPending<T>(c: Ctx<T>, t: Tree<T>)
    requires RemovePending(c, t) && !IsRed(t) && c.InRight? && c.left.Node? && !IsRed(c.left)
    ensures BlackNephews(c.left) ==> RemovePending(c.up, RemoveRoundRight(c, t))
    ensures !BlackNephews(c.left) ==> Sound(c.up, RemoveRoundRight(c, t))
  {
    var h: nat :| GoodCtx(c, h + 1) && Short(t, h);
    var w, r := c.left, RemoveRoundRight(c, t);
    assert Good(t, h) && Good(w, h + 1);
    assert Good(w.left, h) && Good(w.right, h);
    var h' := if c.color == Red then h else h + 1;
    assert GoodCtx(c.up, h' + 1);
    if BlackNephews(w) {
      assert Good(w.(color := Red), h);
      assert Short(r, h');
    } else {
      if !IsRed(w.left) {
        assert Good(w.right.left, h) && Good(w.right.right, h);
      }
      assert Good(r.left, h + 1) && Good(r.right, h + 1);
      assert Good(r, h' + 1);
    }
  }

  lemma SiblingLeftOrder<T>(c: Ctx<T>, t: Tree<T>)
    requires c.InLeft?
    ensures InOrder(Plug(SiblingLeft(c), t)) == InOrder(Plug(c, t))
  {
    if IsRed(c.right) {
      var d := SiblingLeft(c);
      RotatedLeftKeeps(Close(c, t));
      assert Plug(d, t) == Plug(d.up, Close(d, t)) == Plug(c.up, Close(d.up, Close(d, t)));
      InOrderOf(Node(t, c.elem, c.color, c.right.left), c.right.elem, Red, c.right.right);
      InOrderOf(Close(d, t), c.right.elem, Black, c.right.right);
      PlugSame(c.up, Close(c, t), Close(d.up, Close(d, t)));
    }
  }

  lemma SiblingRightOrder<T>(c: Ctx<T>, t: Tree<T>)
    requires c.InRight?
    ensures InOrder(Plug(SiblingRight(c), t)) == InOrder(Plug(c, t))
  {
    if IsRed(c.left) {
      var d := SiblingRight(c);
      RotatedRightKeeps(Close(c, t));
      assert Plug(d, t) == Plug(d.up, Close(d, t)) == Plug(c.up, Close(d.up, Close(d, t)));
      InOrderOf(c.left.left, c.left.elem, Red, Node(c.left.right, c.elem, c.color, t));
      InOrderOf(c.left.left, c.left.elem, Black, Close(d, t));
      PlugSame(c.up, Close(c, t), Close(d.up, Close(d, t)));
    }
  }

  lemma RemoveRoundLeftOrder<T>(c: Ctx<T>, t: Tree<T>)
    requires c.InLeft? && c.right.Node? && !IsRed(c.right)
    ensures InOrder(Plug(c.up, RemoveRoundLeft(c, t))) == InOrder(Plug(c, t))
  {
    var w, p, k, r := c.right, c.elem, c.color, RemoveRoundLeft(c, t);
    if BlackNephews(w) {
      InOrderOf(w.left, w.elem, Red, w.right);
    } else {
      var x := w.(left := Blacken(w.left), color := Red);
      BlackenOrder(w.left);
      InOrderOf(x.left, x.elem, Red, x.right);
      if !IsRed(w.right) {
        RotatedRightKeeps(x);
      }
      var v := if IsRed(w.right) then w else RotatedRight(x);
      BlackenOrder(v.right);
      RotatedLeftKeeps(Node(t, p, Black, v));
      InOrderOf(Node(t, p, Black, v.left), v.elem, k, v.right);
    }
    PlugSame(c.up, Close(c, t), r);
  }

  lemma RemoveRoundRightOrder<T>(c: Ctx<T>, t: Tree<T>)
    requires c.InRight? && c.left.Node? && !IsRed(c.left)
    ensures InOrder(Plug(c.up, RemoveRoundRight(c, t))) == InOrder(Plug(c, t))
  {
    var w, p, k, r := c.left, c.elem, c.color, RemoveRoundRight(c, t);
    if BlackNephews(w) {
      InOrderOf(w.left, w.elem, Red, w.right);
    } else {
      var x := w.(right := Blacken(w.right), color := Red);
      BlackenOrder(w.right);
      InOrderOf(x.left, x.elem, Red, x.right);
      if !IsRed(w.left) {
        RotatedLeftKeeps(x);
      }
      var v := if IsRed(w.left) then w else RotatedLeft(x);
      BlackenOrder(v.left);
      RotatedRightKeeps(Node(v, p, Black, t));
      InOrderOf(v.left, v.elem, k, Node(v.right, p, Black, t));
    }
    PlugSame(c.up, Close(c, t), r);
  }

  /** Painting a red short tree black, or having reached the root, leaves nothing wrong. */
  lemma RemoveSettled<T>(c: Ctx<T>, t: Tree<T>)
    requires RemovePending(c, t) && (IsRed(t) || c.Top?)
    ensures Balanced(Plug(c, Blacken(t)))
  {
    var h: nat :| GoodCtx(c, h + 1) && Short(t, h);
    if IsRed(t) {
      assert Good(Blacken(t), h + 1);
      PlugBalanced(c, Blacken(t), h + 1);
    } else {
      assert Good(t, h) && Blacken(t) == t;
    }
  }

  lemma SoundBalanced<T>(c: Ctx<T>, t: Tree<T>)
    requires Sound(c, t)
    ensures Balanced(Plug(c, t))
  {
    var h: nat :| GoodCtx(c, h) && Good(t, h);
    PlugBalanced(c, t, h);
  }

  // ----- Taking a node out -----

  /** Taking out a node with at most one child leaves a sound tree, or one that is short by a black node. */
  lemma SpliceLeaves<T>(c: Ctx<T>, t: Tree<T>, x: Tree<T>)
    requires Sound(c, t) && t.Node?
    requires (t.left.Leaf? && x == t.right) || (t.right.Leaf? && x == t.left)
    ensures t.color == Red ==> Sound(c, x)
    ensures t.color == Black ==> RemovePending(c, x)
  {
    var h: nat :| GoodCtx(c, h) && Good(t, h);
    if t.color == Red {
      assert GoodCtx(c, h) && Good(x, h);
    } else {
      assert Good(x, h - 1);
      assert GoodCtx(c, (h - 1) + 1) && Short(x, h - 1);
    }
  }

  /** The context of the leftmost node of `t`, seen from the context of `t`. */
  ghost function MinCtx<T>(c: Ctx<T>, t: Tree<T>): Ctx<T>
    requires t.Node?
    decreases t
  {
    if t.left.Leaf? then c else MinCtx(InLeft(c, t.elem, t.color, t.right), t.left)
  }

  /** The subtree whose root is the leftmost node. */
  ghost function MinTree<T>(t: Tree<T>): (m: Tree<T>)
    requires t.Node?
    ensures m.Node? && m.left.Leaf?
  {
    if t.left.Leaf? then t else MinTree(t.left)
  }

  /** The tree without its leftmost node, whose right subtree takes its place. */
  ghost function WithoutMin<T>(t: Tree<T>): Tree<T>
    requires t.Node?
  {
    if t.left.Leaf? then t.right else Node(WithoutMin(t.left), t.elem, t.color, t.right)
  }

  lemma {:induction false} MinSplits<T>(t: Tree<T>)
    requires t.Node?
    ensures InOrder(t) == [MinTree(t).elem] + InOrder(WithoutMin(t))
  {
    if !t.left.Leaf? {
      MinSplits(t.left);
      var s := InOrder(WithoutMin(t.left));
      assert [MinTree(t).elem] + s + [t.elem] + InOrder(t.right) == [MinTree(t).elem] + (s + [t.elem] + InOrder(t.right));
    } else {
      assert InOrder(t.left) == [];
    }
  }

  lemma {:induction false} MinPlug<T>(c: Ctx<T>, t: Tree<T>)
    requires t.Node?
    ensures Plug(MinCtx(c, t), MinTree(t).right) == Plug(c, WithoutMin(t))
    ensures Plug(MinCtx(c, t), MinTree(t)) == Plug(c, t)
    decreases t
  {
    if !t.left.Leaf? {
      MinPlug(InLeft(c, t.elem, t.color, t.right), t.left);
    }
  }

  lemma {:induction false} MinSound<T>(c: Ctx<T>, t: Tree<T>)
    requires Sound(c, t) && t.Node?
    ensures Sound(MinCtx(c, t), MinTree(t))
    decreases t
  {
    if !t.left.Leaf? {
      SoundDown(c, t);
      MinSound(InLeft(c, t.elem, t.color, t.right), t.left);
    }
  }

  /** Balance does not depend on which element the node above the right subtree holds. */
  lemma SoundRename<T>(c: Ctx<T>, l: Tree<T>, x: T, y: T, k: Color, r: Tree<T>)
    requires Sound(InRight(c, l, x, k), r)
    ensures Sound(InRight(c, l, y, k), r)
  {
    var h: nat :| GoodCtx(InRight(c, l, x, k), h) && Good(r, h);
    assert GoodCtx(InRight(c, l, y, k), h) && Good(r, h);
  }

  /** What is left of the in-order sequence when the root of `t` is taken out. */
  ghost function Rest<T>(c: Ctx<T>, t: Tree<T>): seq<T>
    requires t.Node?
  {
    (Before(c) + InOrder(t.left)) + (InOrder(t.right) + After(c))
  }

  lemma SpliceOrder<T>(c: Ctx<T>, t: Tree<T>, x: Tree<T>)
    requires t.Node? && ((t.left.Leaf? && x == t.right) || (t.right.Leaf? && x == t.left))
    ensures InOrder(Plug(c, x)) == Rest(c, t)
  {
    PlugInOrder(c, x);
    assert InOrder<T>(Leaf) == [];
    assert Before(c) + InOrder(x) + After(c) == Before(c) + (InOrder(x) + After(c));
  }

  /** Replacing a node by its successor takes exactly the node out of the order. */
  lemma SuccessorOrder<T>(c: Ctx<T>, t: Tree<T>)
    requires t.Node? && t.right.Node?
    ensures var m := MinTree(t.right);
            InOrder(Plug(MinCtx(InRight(c, t.left, m.elem, t.color), t.right), m.right)) == Rest(c, t)
  {
    var m, r := MinTree(t.right), WithoutMin(t.right);
    var d := InRight(c, t.left, m.elem, t.color);
    MinPlug(d, t.right);
    PlugInOrder(d, r);
    MinSplits(t.right);
    var b, l, w, a := Before(c), InOrder(t.left), InOrder(r), After(c);
    assert b + l + [m.elem] + w + a == (b + l) + ([m.elem] + w + a);
  }
}
