/**
 The red-black tree of tree.h on the heap: nodes with left, right and parent pointers and a
 colour, changed in place by the insertion and removal loops.
 */
module RbTree {
  import opened RedBlack

  class RbNode {
    const key: int
    var left: RbNode?
    var right: RbNode?
    var parent: RbNode?
    var color: Color

    constructor (key: int)
      ensures this.key == key
    {
      this.key, left, right, parent, color := key, null, null, null, Red;
    }
  }

  type T = Tree<RbNode>
  type C = Ctx<RbNode>

  ghost function Root(t: T): RbNode? {
    if t.Node? then t.elem else null
  }

  ghost function Parent(c: C): RbNode? {
    if c.Top? then null else c.elem
  }

  /** The nodes of `t` are linked as `t` says, below the node `p`. */
  ghost predicate Shape(t: T, p: RbNode?)
    reads Nodes(t)
  {
    match t
    case Leaf => true
    case Node(l, n, k, r) =>
      && n.parent == p && n.color == k && n.left == Root(l) && n.right == Root(r)
      && Shape(l, n) && Shape(r, n)
  }

  class RbTree {
    var root: RbNode?
    /** The tree that the heap holds, and its nodes. */
    ghost var tree: T
    ghost var nodes: set<RbNode>

    /** The nodes of `c` are linked as `c` says, with `x` in the hole. */
    ghost predicate CtxShape(c: C, x: RbNode?)
      reads this`root, CtxNodes(c)
    {
      match c
      case Top => root == x
      case InLeft(up, n, k, r) =>
        && n.parent == Parent(up) && n.color == k && n.left == x && n.right == Root(r)
        && Shape(r, n) && CtxShape(up, n)
      case InRight(up, l, n, k) =>
        && n.parent == Parent(up) && n.color == k && n.left == Root(l) && n.right == x
        && Shape(l, n) && CtxShape(up, n)
    }

    /** The heap holds tree `t` in context `c`, and together they are made of the nodes `ns`. */
    ghost predicate At(c: C, t: T, ns: set<RbNode>)
      reads this`root, ns
    {
      CtxNodes(c) + Nodes(t) == ns && Apart(c, t) && CtxShape(c, Root(t)) && Shape(t, Parent(c))
    }

    /** Gives the subtree `t` a new parent. */
    static method SetParent(x: RbNode?, p: RbNode?, ghost q: RbNode?, ghost t: T)
      requires x == Root(t) && Shape(t, q) && Distinct(t)
      modifies (if x == null then {} else {x})`parent
      ensures Shape(t, p)
    {
      if x != null {
        x.parent := p;
      }
    }

    /** Puts `y` into the hole where `x` was. */
    method SetChild(x: RbNode?, y: RbNode?, p: RbNode?, ghost c: C)
      requires p == Parent(c) && CtxShape(c, x) && CtxDistinct(c)
      requires c.InRight? ==> x != c.elem.left
      modifies this`root, (if p == null then {} else {p})`left, (if p == null then {} else {p})`right
      ensures CtxShape(c, y)
    {
      if p != null {
        if p.left == x {
          p.left := y;
        } else {
          p.right := y;
        }
      } else {
        root := y;
      }
    }

    /** Turns the links between `elm` and its right child round. */
    static method TurnLeft(elm: RbNode, ghost t: T, ghost p: RbNode?) returns (tmp: RbNode)
      requires Shape(t, p) && Distinct(t) && t.Node? && t.elem == elm && t.right.Node?
      modifies Nodes(t)
      ensures tmp == t.right.elem && tmp.parent == p && Shape(RotatedLeft(t), p)
    {
      ghost var a, b, d := t.left, t.right.left, t.right.right;
      PartsRight(t);
      hide Nodes, Distinct;
      tmp := elm.right;
      assert Shape(t.right, elm) && Shape(a, elm) && Shape(b, tmp) && Shape(d, tmp);
      assert allocated(Nodes(a)) && allocated(Nodes(d));
      elm.right := tmp.left;
      SetParent(tmp.left, elm, tmp, b);
      tmp.parent := elm.parent;
      tmp.left := elm;
      elm.parent := tmp;
      assert Shape(Node(a, elm, t.color, b), tmp);
    }

    static method TurnRight(elm: RbNode, ghost t: T, ghost p: RbNode?) returns (tmp: RbNode)
      requires Shape(t, p) && Distinct(t) && t.Node? && t.elem == elm && t.left.Node?
      modifies Nodes(t)
      ensures tmp == t.left.elem && tmp.parent == p && Shape(RotatedRight(t), p)
    {
      ghost var a, b, d := t.right, t.left.right, t.left.left;
      PartsLeft(t);
      hide Nodes, Distinct;
      tmp := elm.left;
      assert Shape(t.left, elm) && Shape(a, elm) && Shape(b, tmp) && Shape(d, tmp);
      assert allocated(Nodes(a)) && allocated(Nodes(d));
      elm.left := tmp.right;
      SetParent(tmp.right, elm, tmp, b);
      tmp.parent := elm.parent;
      tmp.right := elm;
      elm.parent := tmp;
      assert Shape(Node(b, elm, t.color, a), tmp);
    }

    /** Makes the right child of `elm` its parent. */
    method RotateLeft(elm: RbNode, ghost c: C, ghost t: T, ghost ns: set<RbNode>) returns (tmp: RbNode)
      requires At(c, t, ns) && t.Node? && t.elem == elm && t.right.Node?
      modifies this`root, ns
      ensures tmp == t.right.elem && At(c, RotatedLeft(t), ns)
    {
      hide Distinct, CtxDistinct;
      RotatedLeftKeeps(t);
      ParentIn(c);
      NotLeft(c, t, ns);
      assert allocated(CtxNodes(c)) && allocated(Nodes(RotatedLeft(t)));
      tmp := TurnLeft(elm, t, Parent(c));
      SetChild(elm, tmp, tmp.parent, c);
    }

    /** Makes the left child of `elm` its parent. */
    method RotateRight(elm: RbNode, ghost c: C, ghost t: T, ghost ns: set<RbNode>) returns (tmp: RbNode)
      requires At(c, t, ns) && t.Node? && t.elem == elm && t.left.Node?
      modifies this`root, ns
      ensures tmp == t.left.elem && At(c, RotatedRight(t), ns)
    {
      hide Distinct, CtxDistinct;
      RotatedRightKeeps(t);
      ParentIn(c);
      NotLeft(c, t, ns);
      assert allocated(CtxNodes(c)) && allocated(Nodes(RotatedRight(t)));
      tmp := TurnRight(elm, t, Parent(c));
      SetChild(elm, tmp, tmp.parent, c);
    }

    // ----- Moving the point of view; nothing changes on the heap -----

    lemma Up(c: C, t: T, ns: set<RbNode>)
      requires At(c, t, ns) && c != Top
      ensures At(c.up, Close(c, t), ns)
    {
    }

    lemma DownLeft(c: C, t: T, ns: set<RbNode>)
      requires At(c, t, ns) && t.Node?
      ensures At(InLeft(c, t.elem, t.color, t.right), t.left, ns)
    {
    }

    lemma DownRight(c: C, t: T, ns: set<RbNode>)
      requires At(c, t, ns) && t.Node?
      ensures At(InRight(c, t.left, t.elem, t.color), t.right, ns)
    {
    }

    /** Colours one node. */
    method Paint(x: RbNode, k: Color, ghost c: C, ghost t: T, ghost ns: set<RbNode>)
      requires At(c, t, ns) && t.Node? && t.elem == x
      modifies ns`color
      ensures At(c, t.(color := k), ns)
    {
      assert allocated(CtxNodes(c)) && allocated(Nodes(t.left)) && allocated(Nodes(t.right));
      x.color := k;
    }

    /** What the fields of the node in view and of the node above it are. */
    lemma Look(c: C, t: T, ns: set<RbNode>)
      requires At(c, t, ns)
      ensures t.Node? ==> t.elem.parent == Parent(c) && t.elem.color == t.color
      ensures t.Node? ==> t.elem.left == Root(t.left) && t.elem.right == Root(t.right)
      ensures t.Node? && t.left.Node? ==> t.left.elem.color == t.left.color
      ensures t.Node? && t.right.Node? ==> t.right.elem.color == t.right.color
      ensures c.Top? ==> root == Root(t)
      ensures !c.Top? && c.up.Top? ==> root == c.elem
      ensures !c.Top? ==> c.elem.color == c.color && c.elem.parent == Parent(c.up)
      ensures c.InLeft? ==> c.elem.left == Root(t) && c.elem.right == Root(c.right)
      ensures c.InRight? ==> c.elem.right == Root(t) && c.elem.left == Root(c.left)
      ensures c.InLeft? && t.Node? ==> Root(c.right) != t.elem
      ensures c.InRight? && t.Node? ==> Root(c.left) != t.elem
      ensures c.InLeft? && c.right.Node? ==> c.right.elem.color == c.right.color
      ensures c.InRight? && c.left.Node? ==> c.left.elem.color == c.left.color
    {
      if !c.Top? {
        assert CtxShape(c.up, c.elem);
      }
      if t.Node? {
        assert Shape(t.left, t.elem) && Shape(t.right, t.elem);
      }
      if c.InRight? {
        assert c.left.Leaf? || c.left.elem in Nodes(c.left);
      } else if c.InLeft? {
        assert c.right.Leaf? || c.right.elem in Nodes(c.right);
      }
    }

    /** A subtree in the right hole of a node is not that node's left child. */
    lemma NotLeft(c: C, t: T, ns: set<RbNode>)
      requires At(c, t, ns) && t.Node?
      ensures c.InRight? ==> t.elem != c.elem.left
    {
      if c.InRight? {
        assert c.left.Leaf? || c.left.elem in Nodes(c.left);
      }
    }

    // ----- Insertion -----

    /** One round of the repair loop when `parent` is the left child of `gparent`. */
    method InsertLeft(elm0: RbNode, parent0: RbNode, gparent: RbNode, ghost c: C, ghost t: T, ghost ns: set<RbNode>)
        returns (elm: RbNode)
      requires At(c, t, ns) && t.Node? && t.elem == elm0 && RedAbove(c) && c.elem == parent0
      requires c.up.InLeft? && c.up.elem == gparent && c.up.color == Black
      modifies this`root, ns
      ensures At(InsertRoundLeft(c, t).0, InsertRoundLeft(c, t).1, ns)
      ensures elm == Root(InsertRoundLeft(c, t).1)
    {
      hide At, Nodes, CtxNodes;
      var parent := parent0;
      elm := elm0;
      ghost var up, g, u, tp := c.up.up, gparent, c.up.right, Close(c, t);
      Look(c, t, ns);
      Up(c, t, ns);
      Look(c.up, tp, ns);
      var tmp := gparent.right;
      if tmp != null && tmp.color == Red {
        // The uncle is red: recolour and continue at the grandparent.
        Up(c.up, tp, ns);
        DownRight(up, Node(tp, g, Black, u), ns);
        Paint(tmp, Black, InRight(up, tp, g, Black), u, ns);
        Up(InRight(up, tp, g, Black), Blacken(u), ns);
        DownLeft(up, Node(tp, g, Black, Blacken(u)), ns);
        Paint(parent, Black, InLeft(up, g, Black, Blacken(u)), tp, ns);
        Up(InLeft(up, g, Black, Blacken(u)), Blacken(tp), ns);
        Paint(gparent, Red, up, Node(Blacken(tp), g, Black, Blacken(u)), ns);
        return gparent;
      }
      if parent.right == elm {
        tmp := RotateLeft(parent, c.up, tp, ns);
        tp := RotatedLeft(tp);
        parent, elm := elm, parent;
      }
      Paint(parent, Black, c.up, tp, ns);
      tp := Blacken(tp);
      Up(c.up, tp, ns);
      Paint(gparent, Red, up, Node(tp, g, Black, u), ns);
      tmp := RotateRight(gparent, up, Node(tp, g, Red, u), ns);
      DownLeft(up, RotatedRight(Node(tp, g, Red, u)), ns);
    }

    /** The mirror image: `parent` is the right child of `gparent`. */
    method InsertRight(elm0: RbNode, parent0: RbNode, gparent: RbNode, ghost c: C, ghost t: T, ghost ns: set<RbNode>)
        returns (elm: RbNode)
      requires At(c, t, ns) && t.Node? && t.elem == elm0 && RedAbove(c) && c.elem == parent0
      requires c.up.InRight? && c.up.elem == gparent && c.up.color == Black
      modifies this`root, ns
      ensures At(InsertRoundRight(c, t).0, InsertRoundRight(c, t).1, ns)
      ensures elm == Root(InsertRoundRight(c, t).1)
    {
      hide At, Nodes, CtxNodes;
      var parent := parent0;
      elm := elm0;
      ghost var up, g, u, tp := c.up.up, gparent, c.up.left, Close(c, t);
      Look(c, t, ns);
      Up(c, t, ns);
      Look(c.up, tp, ns);
      var tmp := gparent.left;
      if tmp != null && tmp.color == Red {
        Up(c.up, tp, ns);
        DownLeft(up, Node(u, g, Black, tp), ns);
        Paint(tmp, Black, InLeft(up, g, Black, tp), u, ns);
        Up(InLeft(up, g, Black, tp), Blacken(u), ns);
        DownRight(up, Node(Blacken(u), g, Black, tp), ns);
        Paint(parent, Black, InRight(up, Blacken(u), g, Black), tp, ns);
        Up(InRight(up, Blacken(u), g, Black), Blacken(tp), ns);
        Paint(gparent, Red, up, Node(Blacken(u), g, Black, Blacken(tp)), ns);
        return gparent;
      }
      if parent.left == elm {
        tmp := RotateRight(parent, c.up, tp, ns);
        tp := RotatedRight(tp);
        parent, elm := elm, parent;
      }
      Paint(parent, Black, c.up, tp, ns);
      tp := Blacken(tp);
      Up(c.up, tp, ns);
      Paint(gparent, Red, up, Node(u, g, Black, tp), ns);
      tmp := RotateLeft(gparent, up, Node(u, g, Red, tp), ns);
      DownRight(up, RotatedLeft(Node(u, g, Red, tp)), ns);
    }

    lemma {:induction false} Zip(c: C, t: T, ns: set<RbNode>)
      requires At(c, t, ns)
      ensures At(Top, Plug(c, t), ns)
      decreases c
    {
      if !c.Top? {
        Up(c, t, ns);
        Zip(c.up, Close(c, t), ns);
      }
    }

    /** The repair loop after insertion: from a tree with at most a red node below a red one to a balanced tree. */
    method InsertColor(elm0: RbNode, ghost c0: C, ghost t0: T)
      requires At(c0, t0, nodes) && t0.Node? && t0.elem == elm0 && InsertPending(c0, t0)
      modifies this, nodes
      ensures At(Top, tree, nodes) && nodes == old(nodes)
      ensures Balanced(tree) && InOrder(tree) == InOrder(Plug(c0, t0))
    {
      hide At, Nodes, CtxNodes, InsertPending, Balanced, InsertRoundLeft, InsertRoundRight, InOrder, Plug;
      var elm := elm0;
      ghost var c, t := c0, t0;
      Look(c, t, nodes);
      var parent := elm.parent;
      while parent != null && parent.color == Red
        invariant At(c, t, nodes) && t.Node? && t.elem == elm && parent == Parent(c) && nodes == old(nodes)
        invariant InsertPending(c, t) && InOrder(Plug(c, t)) == InOrder(Plug(c0, t0))
        decreases Depth(c)
      {
        Look(c, t, nodes);
        PendingAbove(c, t);
        Up(c, t, nodes);
        Look(c.up, Close(c, t), nodes);
        var gparent := parent.parent;
        assert gparent != null;
        if parent == gparent.left {
          InsertRoundLeftPending(c, t);
          InsertRoundLeftOrder(c, t);
          elm := InsertLeft(elm, parent, gparent, c, t, nodes);
          c, t := InsertRoundLeft(c, t).0, InsertRoundLeft(c, t).1;
        } else {
          InsertRoundRightPending(c, t);
          InsertRoundRightOrder(c, t);
          elm := InsertRight(elm, parent, gparent, c, t, nodes);
          c, t := InsertRoundRight(c, t).0, InsertRoundRight(c, t).1;
        }
        Look(c, t, nodes);
        parent := elm.parent;
      }
      Look(c, t, nodes);
      InsertSettled(c, t);
      BlackenOrder(Plug(c, t));
      Zip(c, t, nodes);
      PlugNode(c, t);
      Look(Top, Plug(c, t), nodes);
      Paint(root, Black, Top, Plug(c, t), nodes);
      tree := Blacken(Plug(c, t));
    }

    // ----- The operations -----

    /** Search order, consistent links in both directions, and balance with a black root. */
    ghost predicate Valid()
      reads this, nodes
    {
      At(Top, tree, nodes) && Balanced(tree) && Ordered(InOrder(tree))
    }

    ghost function Keys(): set<int>
      reads this
    {
      set n | n in nodes :: n.key
    }

    constructor ()
      ensures Valid() && nodes == {}
    {
      root, tree, nodes := null, Leaf, {};
      new;
      assert Good<RbNode>(Leaf, 0);
    }

    /** The search path for `key` has come to subtree `t`: everything else is on the proper side. */
    ghost predicate Searching(c: C, t: T, key: int)
      reads this, nodes
    {
      && At(c, t, nodes) && Plug(c, t) == tree && Sound(c, t)
      && (forall i :: 0 <= i < |Before(c)| ==> Before(c)[i].key < key)
      && (forall i :: 0 <= i < |After(c)| ==> key < After(c)[i].key)
    }

    lemma SearchStart(key: int)
      requires Valid()
      ensures Searching(Top, tree, key)
    {
    }

    lemma SearchLeft(c: C, t: T, key: int)
      requires Valid() && Searching(c, t, key) && t.Node? && key < t.elem.key
      ensures Searching(InLeft(c, t.elem, t.color, t.right), t.left, key)
    {
      DownLeft(c, t, nodes);
      SoundDown(c, t);
      OrderedSplit(c, t);
    }

    lemma SearchRight(c: C, t: T, key: int)
      requires Valid() && Searching(c, t, key) && t.Node? && t.elem.key < key
      ensures Searching(InRight(c, t.left, t.elem, t.color), t.right, key)
    {
      DownRight(c, t, nodes);
      SoundDown(c, t);
      OrderedSplit(c, t);
    }

    /** In an ordered tree the keys left of a node are smaller than its key and those right of it larger. */
    lemma OrderedSplit(c: C, t: T)
      requires Ordered(InOrder(tree)) && Plug(c, t) == tree && t.Node?
      ensures forall i :: 0 <= i < |InOrder(t.left)| ==> InOrder(t.left)[i].key < t.elem.key
      ensures forall i :: 0 <= i < |InOrder(t.right)| ==> t.elem.key < InOrder(t.right)[i].key
    {
      hide Ordered, Plug;
      PlugInOrder(c, t);
      assert InOrder(t) == InOrder(t.left) + [t.elem] + InOrder(t.right);
      OrderedAround(Before(c), InOrder(t.left), t.elem, InOrder(t.right), After(c));
    }

    /** A search that has run into an empty place proves that the key is not in the tree. */
    lemma SearchFails(c: C, key: int)
      requires Searching(c, Leaf, key)
      ensures key !in Keys()
    {
      PlugInOrder(c, Leaf);
      NodesInOrder(tree);
      PlugNodes(c, Leaf);
    }

    lemma SearchFinds(c: C, t: T, key: int)
      requires Searching(c, t, key) && t.Node? && t.elem.key == key
      ensures t.elem in nodes
    {
    }

    /** Finds the node with the given key, or null if there is none. */
    method Find(key: int) returns (tmp: RbNode?)
      requires Valid()
      ensures tmp == null <==> key !in Keys()
      ensures tmp != null ==> tmp in nodes && tmp.key == key
    {
      hide At, Nodes, CtxNodes, Searching, Balanced, InOrder, Plug;
      tmp := root;
      ghost var c: C, t: T := Top, tree;
      Look(c, t, nodes);
      SearchStart(key);
      while tmp != null
        invariant At(c, t, nodes) && Searching(c, t, key) && tmp == Root(t)
        decreases t
      {
        Look(c, t, nodes);
        if key < tmp.key {
          SearchLeft(c, t, key);
          DownLeft(c, t, nodes);
          tmp, c, t := tmp.left, InLeft(c, t.elem, t.color, t.right), t.left;
        } else if tmp.key < key {
          SearchRight(c, t, key);
          DownRight(c, t, nodes);
          tmp, c, t := tmp.right, InRight(c, t.left, t.elem, t.color), t.right;
        } else {
          SearchFinds(c, t, key);
          return;
        }
      }
      SearchFails(c, key);
    }

    /** Hangs a new red leaf into the empty place that the search has found. */
    method Attach(elm: RbNode, parent: RbNode?, comp: int, ghost c: C, ghost ns: set<RbNode>)
      requires At(c, Leaf, ns) && elm !in ns && parent == Parent(c)
      requires c.InLeft? ==> comp < 0
      requires c.InRight? ==> comp > 0
      modifies this`root, elm, ns
      ensures At(c, Node(Leaf, elm, Red, Leaf), ns + {elm})
    {
      ghost var t: T := Node(Leaf, elm, Red, Leaf);
      assert Nodes(t) == {elm} && Distinct(t);
      assert allocated(CtxNodes(c));
      ParentIn(c);
      elm.parent := parent;
      elm.left, elm.right := null, null;
      elm.color := Red;
      if parent != null {
        if comp < 0 {
          parent.left := elm;
        } else {
          parent.right := elm;
        }
      } else {
        root := elm;
      }
    }

    /** Inserts a node unless its key is taken, in which case the node that has it is returned. */
    method Insert(elm: RbNode) returns (dup: RbNode?)
      requires Valid()
      modifies this, nodes, elm
      ensures Valid()
      ensures dup == null <==> elm.key !in old(Keys())
      ensures dup == null ==> nodes == old(nodes) + {elm}
      ensures dup != null ==> dup in nodes && dup.key == elm.key && tree == old(tree) && nodes == old(nodes)
    {
      hide At, Nodes, CtxNodes, Searching, Balanced, InOrder, Plug, Sound, InsertPending, Ordered;
      var tmp := root;
      var parent: RbNode? := null;
      var comp := 0;
      ghost var c: C, t: T := Top, tree;
      Look(c, t, nodes);
      SearchStart(elm.key);
      while tmp != null
        invariant At(c, t, nodes) && Searching(c, t, elm.key) && tmp == Root(t) && parent == Parent(c)
        invariant (c.InLeft? ==> comp < 0) && (c.InRight? ==> comp > 0)
        modifies {}
        decreases t
      {
        Look(c, t, nodes);
        parent := tmp;
        comp := elm.key - parent.key;
        if comp < 0 {
          SearchLeft(c, t, elm.key);
          DownLeft(c, t, nodes);
          tmp, c, t := tmp.left, InLeft(c, t.elem, t.color, t.right), t.left;
        } else if comp > 0 {
          SearchRight(c, t, elm.key);
          DownRight(c, t, nodes);
          tmp, c, t := tmp.right, InRight(c, t.left, t.elem, t.color), t.right;
        } else {
          SearchFinds(c, t, elm.key);
          return tmp;
        }
      }
      SearchFails(c, elm.key);
      assert elm !in nodes;
      ReadyToInsert(c, elm);
      Attach(elm, parent, comp, c, nodes);
      nodes := nodes + {elm};
      InsertColor(elm, c, Node(Leaf, elm, Red, Leaf));
      return null;
    }

    lemma ReadyToInsert(c: C, elm: RbNode)
      requires Searching(c, Leaf, elm.key) && Ordered(InOrder(tree))
      ensures InsertPending(c, Node(Leaf, elm, Red, Leaf))
      ensures Ordered(InOrder(Plug(c, Node(Leaf, elm, Red, Leaf))))
    {
      SoundInsert(c, elm);
      PlugInOrder(c, Leaf);
      PlugInOrder(c, Node(Leaf, elm, Red, Leaf));
      assert InOrder<RbNode>(Node(Leaf, elm, Red, Leaf)) == [elm] && InOrder<RbNode>(Leaf) == [];
      OrderedInsert(Before(c), elm, After(c));
    }

    // ----- Removal -----

    /** Brings a black sibling next to the short tree in the left hole of `parent`. */
    method LevelLeft(parent: RbNode, ghost c: C, ghost t: T, ghost ns: set<RbNode>) returns (tmp: RbNode)
      requires At(c, t, ns) && c.InLeft? && c.elem == parent && c.right.Node?
      requires IsRed(c.right) ==> c.right.left.Node?
      modifies this`root, ns
      ensures At(SiblingLeft(c), t, ns) && tmp == SiblingLeft(c).right.elem
    {
      hide At, Nodes, CtxNodes;
      ghost var up, w, tp := c.up, c.right, Close(c, t);
      Look(c, t, ns);
      tmp := parent.right;
      if tmp.color == Red {
        Up(c, t, ns);
        DownRight(up, tp, ns);
        Paint(tmp, Black, InRight(up, t, parent, c.color), w, ns);
        Up(InRight(up, t, parent, c.color), Blacken(w), ns);
        Paint(parent, Red, up, Node(t, parent, c.color, Blacken(w)), ns);
        tmp := RotateLeft(parent, up, Node(t, parent, Red, Blacken(w)), ns);
        DownLeft(up, RotatedLeft(Node(t, parent, Red, Blacken(w))), ns);
        DownLeft(InLeft(up, w.elem, Black, w.right), Node(t, parent, Red, w.left), ns);
        Look(SiblingLeft(c), t, ns);
        tmp := parent.right;
      }
    }

    /** The black sibling `tmp0` turns red, or is rotated above `parent`; `done` tells which. */
    method RemoveLeft(parent: RbNode, tmp0: RbNode, ghost c: C, ghost t: T, ghost ns: set<RbNode>) returns (done: bool)
      requires At(c, t, ns) && c.InLeft? && c.elem == parent && c.right.Node? && !IsRed(c.right) && tmp0 == c.right.elem
      modifies this`root, ns
      ensures At(c.up, RemoveRoundLeft(c, t), ns)
      ensures done <==> !BlackNephews(c.right)
    {
      hide At, Nodes, CtxNodes;
      var tmp := tmp0;
      ghost var up, w, k := c.up, c.right, c.color;
      ghost var cw := InRight(up, t, parent, k);
      Up(c, t, ns);
      DownRight(up, Close(c, t), ns);
      Look(cw, w, ns);
      done := !((tmp.left == null || tmp.left.color == Black) && (tmp.right == null || tmp.right.color == Black));
      if !done {
        Paint(tmp, Red, cw, w, ns);
        Up(cw, w.(color := Red), ns);
        return;
      }
      if tmp.right == null || tmp.right.color == Black {
        var oleft := tmp.left;
        if oleft != null {
          DownLeft(cw, w, ns);
          Paint(oleft, Black, InLeft(cw, w.elem, w.color, w.right), w.left, ns);
          Up(InLeft(cw, w.elem, w.color, w.right), Blacken(w.left), ns);
        }
        Paint(tmp, Red, cw, w.(left := Blacken(w.left)), ns);
        w := w.(left := Blacken(w.left), color := Red);
        oleft := RotateRight(tmp, cw, w, ns);
        w := RotatedRight(w);
        Look(cw, w, ns);
        tmp := parent.right;
      }
      FinishLeft(parent, tmp, c, w, t, ns);
    }

    /** The last steps: the sibling takes the parent's colour and place. */
    method FinishLeft(parent: RbNode, tmp: RbNode, ghost c: C, ghost w: T, ghost t: T, ghost ns: set<RbNode>)
      requires c.InLeft? && c.elem == parent && w.Node? && w.elem == tmp && w.right.Node?
      requires At(InRight(c.up, t, parent, c.color), w, ns)
      modifies this`root, ns
      ensures At(c.up, Node(Node(t, parent, Black, w.left), tmp, c.color, Blacken(w.right)), ns)
    {
      hide At, Nodes, CtxNodes;
      ghost var up, k := c.up, c.color;
      ghost var cw := InRight(up, t, parent, k);
      Look(cw, w, ns);
      Paint(tmp, parent.color, cw, w, ns);
      ghost var v := w.(color := k);
      Up(cw, v, ns);
      Paint(parent, Black, up, Node(t, parent, k, v), ns);
      DownRight(up, Node(t, parent, Black, v), ns);
      Look(InRight(up, t, parent, Black), v, ns);
      if tmp.right != null {
        DownRight(InRight(up, t, parent, Black), v, ns);
        Paint(tmp.right, Black, InRight(InRight(up, t, parent, Black), v.left, tmp, k), v.right, ns);
        Up(InRight(InRight(up, t, parent, Black), v.left, tmp, k), Blacken(v.right), ns);
      }
      v := v.(right := Blacken(v.right));
      Up(InRight(up, t, parent, Black), v, ns);
      var top := RotateLeft(parent, up, Node(t, parent, Black, v), ns);
    }

    /** Brings a black sibling next to the short tree in the right hole of `parent`. */
    method LevelRight(parent: RbNode, ghost c: C, ghost t: T, ghost ns: set<RbNode>) returns (tmp: RbNode)
      requires At(c, t, ns) && c.InRight? && c.elem == parent && c.left.Node?
      requires IsRed(c.left) ==> c.left.right.Node?
      modifies this`root, ns
      ensures At(SiblingRight(c), t, ns) && tmp == SiblingRight(c).left.elem
    {
      hide At, Nodes, CtxNodes;
      ghost var up, w, tp := c.up, c.left, Close(c, t);
      Look(c, t, ns);
      tmp := parent.left;
      if tmp.color == Red {
        Up(c, t, ns);
        DownLeft(up, tp, ns);
        Paint(tmp, Black, InLeft(up, parent, c.color, t), w, ns);
        Up(InLeft(up, parent, c.color, t), Blacken(w), ns);
        Paint(parent, Red, up, Node(Blacken(w), parent, c.color, t), ns);
        tmp := RotateRight(parent, up, Node(Blacken(w), parent, Red, t), ns);
        DownRight(up, RotatedRight(Node(Blacken(w), parent, Red, t)), ns);
        DownRight(InRight(up, w.left, w.elem, Black), Node(w.right, parent, Red, t), ns);
        Look(SiblingRight(c), t, ns);
        tmp := parent.left;
      }
    }

    /** The black sibling `tmp0` turns red, or is rotated above `parent`; `done` tells which. */
    method RemoveRight(parent: RbNode, tmp0: RbNode, ghost c: C, ghost t: T, ghost ns: set<RbNode>) returns (done: bool)
      requires At(c, t, ns) && c.InRight? && c.elem == parent && c.left.Node? && !IsRed(c.left) && tmp0 == c.left.elem
      modifies this`root, ns
      ensures At(c.up, RemoveRoundRight(c, t), ns)
      ensures done <==> !BlackNephews(c.left)
    {
      hide At, Nodes, CtxNodes;
      var tmp := tmp0;
      ghost var up, w, k := c.up, c.left, c.color;
      ghost var cw := InLeft(up, parent, k, t);
      Up(c, t, ns);
      DownLeft(up, Close(c, t), ns);
      Look(cw, w, ns);
      done := !((tmp.left == null || tmp.left.color == Black) && (tmp.right == null || tmp.right.color == Black));
      if !done {
        Paint(tmp, Red, cw, w, ns);
        Up(cw, w.(color := Red), ns);
        return;
      }
      if tmp.left == null || tmp.left.color == Black {
        var oright := tmp.right;
        if oright != null {
          DownRight(cw, w, ns);
          Paint(oright, Black, InRight(cw, w.left, w.elem, w.color), w.right, ns);
          Up(InRight(cw, w.left, w.elem, w.color), Blacken(w.right), ns);
        }
        Paint(tmp, Red, cw, w.(right := Blacken(w.right)), ns);
        w := w.(right := Blacken(w.right), color := Red);
        oright := RotateLeft(tmp, cw, w, ns);
        w := RotatedLeft(w);
        Look(cw, w, ns);
        tmp := parent.left;
      }
      FinishRight(parent, tmp, c, w, t, ns);
    }

    /** The last steps: the sibling takes the parent's colour and place. */
    method FinishRight(parent: RbNode, tmp: RbNode, ghost c: C, ghost w: T, ghost t: T, ghost ns: set<RbNode>)
      requires c.InRight? && c.elem == parent && w.Node? && w.elem == tmp && w.left.Node?
      requires At(InLeft(c.up, parent, c.color, t), w, ns)
      modifies this`root, ns
      ensures At(c.up, Node(Blacken(w.left), tmp, c.color, Node(w.right, parent, Black, t)), ns)
    {
      hide At, Nodes, CtxNodes;
      ghost var up, k := c.up, c.color;
      ghost var cw := InLeft(up, parent, k, t);
      Look(cw, w, ns);
      Paint(tmp, parent.color, cw, w, ns);
      ghost var v := w.(color := k);
      Up(cw, v, ns);
      Paint(parent, Black, up, Node(v, parent, k, t), ns);
      DownLeft(up, Node(v, parent, Black, t), ns);
      Look(InLeft(up, parent, Black, t), v, ns);
      if tmp.left != null {
        DownLeft(InLeft(up, parent, Black, t), v, ns);
        Paint(tmp.left, Black, InLeft(InLeft(up, parent, Black, t), tmp, k, v.right), v.left, ns);
        Up(InLeft(InLeft(up, parent, Black, t), tmp, k, v.right), Blacken(v.left), ns);
      }
      v := v.(left := Blacken(v.left));
      Up(InLeft(up, parent, Black, t), v, ns);
      var top := RotateRight(parent, up, Node(v, parent, Black, t), ns);
    }

    /** Away from the root, the root is one of the nodes above. */
    lemma {:induction false} RootAbove(c: C, x: RbNode?)
      requires CtxShape(c, x) && !c.Top?
      ensures root != null && root in CtxNodes(c)
      decreases c
    {
      if !c.up.Top? {
        RootAbove(c.up, c.elem);
      }
    }

    lemma AtRoot(c: C, t: T, ns: set<RbNode>)
      requires At(c, t, ns)
      ensures root == Root(t) <==> c.Top?
    {
      if !c.Top? {
        RootAbove(c, Root(t));
        assert t.Node? ==> t.elem in Nodes(t);
      }
    }

    /** A short tree below the root has a sibling, and a red one has children. */
    lemma SiblingThere(c: C, t: T)
      requires RemovePending(c, t)
      ensures c.InLeft? ==> c.right.Node? && (IsRed(c.right) ==> c.right.left.Node?)
      ensures c.InRight? ==> c.left.Node? && (IsRed(c.left) ==> c.left.right.Node?)
    {
      if c.InLeft? {
        SiblingLeftPending(c, t);
      } else if c.InRight? {
        SiblingRightPending(c, t);
      }
    }

    /** One round of the removal loop for a short tree that is not the whole tree. */
    method RemoveRound(parent: RbNode, elm: RbNode?, ghost c: C, ghost t: T, ghost ns: set<RbNode>)
        returns (done: bool, ghost c': C, ghost t': T)
      requires At(c, t, ns) && RemovePending(c, t) && !IsRed(t) && !c.Top? && c.elem == parent && elm == Root(t)
      modifies this`root, ns
      ensures At(c', t', ns) && t'.Node? && (!done ==> t'.elem == parent)
      ensures InOrder(Plug(c', t')) == InOrder(Plug(c, t))
      ensures done ==> Sound(c', t')
      ensures !done ==> RemovePending(c', t') && (IsRed(t') || Depth(c') < Depth(c))
    {
      hide At, Nodes, CtxNodes, RemovePending, Sound, InOrder, Plug;
      Look(c, t, ns);
      LeftOrRight(c, t, ns);
      SiblingThere(c, t);
      if parent.left == elm {
        SiblingLeftPending(c, t);
        SiblingLeftOrder(c, t);
        var tmp := LevelLeft(parent, c, t, ns);
        ghost var d := SiblingLeft(c);
        RemoveRoundLeftPending(d, t);
        RemoveRoundLeftOrder(d, t);
        done := RemoveLeft(parent, tmp, d, t, ns);
        c', t' := d.up, RemoveRoundLeft(d, t);
      } else {
        SiblingRightPending(c, t);
        SiblingRightOrder(c, t);
        var tmp := LevelRight(parent, c, t, ns);
        ghost var d := SiblingRight(c);
        RemoveRoundRightPending(d, t);
        RemoveRoundRightOrder(d, t);
        done := RemoveRight(parent, tmp, d, t, ns);
        c', t' := d.up, RemoveRoundRight(d, t);
      }
    }

    /** Comparing with the left child tells on which side a possibly empty tree with a sibling hangs. */
    lemma LeftOrRight(c: C, t: T, ns: set<RbNode>)
      requires At(c, t, ns) && RemovePending(c, t) && !c.Top?
      ensures c.elem.left == Root(t) <==> c.InLeft?
    {
      Look(c, t, ns);
      SiblingThere(c, t);
    }

    /** The repair loop after removal: from a tree with one short subtree to a balanced tree. */
    method RemoveColor(parent0: RbNode?, elm0: RbNode?, ghost c0: C, ghost t0: T)
      requires At(c0, t0, nodes) && RemovePending(c0, t0) && parent0 == Parent(c0) && elm0 == Root(t0)
      modifies this, nodes
      ensures At(Top, tree, nodes) && nodes == old(nodes)
      ensures Balanced(tree) && InOrder(tree) == InOrder(Plug(c0, t0))
    {
      hide At, Nodes, CtxNodes, RemovePending, Sound, InOrder, Plug, Balanced;
      var elm, parent := elm0, parent0;
      ghost var c, t := c0, t0;
      var done := false;
      Look(c, t, nodes);
      AtRoot(c, t, nodes);
      while !done && (elm == null || elm.color == Black) && elm != root
        invariant At(c, t, nodes) && nodes == old(nodes) && InOrder(Plug(c, t)) == InOrder(Plug(c0, t0))
        invariant !done ==> parent == Parent(c) && elm == Root(t) && RemovePending(c, t)
        invariant !done ==> (root == Root(t) <==> c.Top?)
        invariant !done && t.Node? ==> elm.color == t.color
        invariant done ==> Sound(c, t) && t.Node?
        decreases !done, if IsRed(t) then 0 else Depth(c) + 1
      {
        ghost var c', t';
        done, c', t' := RemoveRound(parent, elm, c, t, nodes);
        c, t := c', t';
        Look(c, t, nodes);
        AtRoot(c, t, nodes);
        if !done {
          elm := parent;
          parent := elm.parent;
        }
      }
      Settle(if done then root else elm, done, c, t);
    }

    /** Paints the last node black and looks at the whole tree again. */
    method Settle(elm: RbNode?, ghost done: bool, ghost c: C, ghost t: T)
      requires At(c, t, nodes)
      requires done ==> Sound(c, t) && t.Node? && elm == root
      requires !done ==> RemovePending(c, t) && (IsRed(t) || c.Top?) && elm == Root(t)
      modifies this, nodes
      ensures At(Top, tree, nodes) && nodes == old(nodes)
      ensures Balanced(tree) && InOrder(tree) == InOrder(Plug(c, t))
    {
      hide At, Nodes, CtxNodes, RemovePending, Sound, InOrder, Plug;
      ghost var c', t' := c, t;
      if done {
        SoundBalanced(c, t);
        PlugNode(c, t);
        Zip(c, t, nodes);
        Look(Top, Plug(c, t), nodes);
        c', t' := Top, Plug(c, t);
        assert Blacken(t') == t' && Plug(c', t') == t' by { PlugTop(t'); }
      } else {
        RemoveSettled(c, t);
      }
      if elm != null {
        Paint(elm, Black, c', t', nodes);
      }
      BlackenOrder(t');
      PlugSame(c', t', Blacken(t'));
      Zip(c', Blacken(t'), nodes);
      tree := Plug(c', Blacken(t'));
    }

    /** A node of the tree comes into view. */
    lemma {:induction false} Focus(x: RbNode, c: C, t: T, ns: set<RbNode>) returns (c': C, t': T)
      requires At(c, t, ns) && Sound(c, t) && x in Nodes(t)
      ensures At(c', t', ns) && Sound(c', t') && t'.Node? && t'.elem == x && Plug(c', t') == Plug(c, t)
      decreases t
    {
      if t.elem == x {
        c', t' := c, t;
      } else {
        SoundDown(c, t);
        if x in Nodes(t.left) {
          DownLeft(c, t, ns);
          c', t' := Focus(x, InLeft(c, t.elem, t.color, t.right), t.left, ns);
        } else {
          DownRight(c, t, ns);
          c', t' := Focus(x, InRight(c, t.left, t.elem, t.color), t.right, ns);
        }
      }
    }

    /** Takes out a node with at most one child; `child` takes its place. */
    method Splice(elm: RbNode, child: RbNode?, ghost c: C, ghost t: T, ghost x: T, ghost ns: set<RbNode>)
        returns (parent: RbNode?, color: Color)
      requires At(c, t, ns) && t.Node? && t.elem == elm && child == Root(x)
      requires (t.left.Leaf? && x == t.right) || (t.right.Leaf? && x == t.left)
      modifies this`root, ns
      ensures At(c, x, ns - {elm}) && parent == Parent(c) && color == t.color
      ensures elm.left == old(elm.left) && elm.right == old(elm.right) && elm.parent == old(elm.parent)
      ensures elm.color == old(elm.color)
    {
      hide Nodes, Distinct, CtxDistinct, CtxNodes, Shape, CtxShape;
      SpliceFacts(elm, c, t, x, ns);
      assert allocated(CtxNodes(c)) && allocated(Nodes(x));
      parent, color := elm.parent, elm.color;
      SetParent(child, parent, elm, x);
      assert CtxShape(c, elm);
      SetChild(elm, child, parent, c);
    }

    lemma SpliceFacts(elm: RbNode, c: C, t: T, x: T, ns: set<RbNode>)
      requires At(c, t, ns) && t.Node? && t.elem == elm
      requires (t.left.Leaf? && x == t.right) || (t.right.Leaf? && x == t.left)
      ensures Nodes(t) == Nodes(x) + {elm} && Distinct(x) && elm !in Nodes(x) && Shape(x, elm)
      ensures CtxShape(c, elm) && CtxDistinct(c) && CtxNodes(c) !! Nodes(x) && elm !in CtxNodes(c)
      ensures ns == CtxNodes(c) + Nodes(t) && elm.parent == Parent(c) && elm.color == t.color
      ensures Parent(c) != null ==> Parent(c) in CtxNodes(c)
      ensures x.Node? ==> x.elem in Nodes(x)
      ensures c.InRight? ==> elm != c.elem.left
    {
      ParentIn(c);
      NotLeft(c, t, ns);
    }

    /** Gives `elm` the links and the colour of `x`, and makes it the parent of the children of `x`. */
    static method TakeOver(x: RbNode, elm: RbNode, ghost l: T, ghost k: Color, ghost r: T, ghost p: RbNode?)
      requires Shape(Node(l, x, k, r), p) && Distinct(Node(l, x, k, r)) && l.Node?
      requires elm != x && elm !in Nodes(l) && elm !in Nodes(r)
      modifies elm, Nodes(l), Nodes(r)
      ensures Shape(Node(l, elm, k, r), p) && elm.parent == p
    {
      assert Shape(l, x) && Shape(r, x) && x !in Nodes(l) && x !in Nodes(r);
      assert l.elem in Nodes(l) && (r.Node? ==> r.elem in Nodes(r));
      assert Distinct(l) && Distinct(r) && Nodes(l) !! Nodes(r);
      assert allocated(Nodes(l)) && allocated(Nodes(r));
      hide Nodes, Distinct;
      elm.left, elm.right, elm.parent, elm.color := x.left, x.right, x.parent, x.color;
      assert x.left != null;
      SetParent(x.left, elm, x, l);
      SetParent(x.right, elm, x, r);
    }

    /** Puts `elm`, which is not in the tree, into the place and colour of the node `x`. */
    method Replace(x: RbNode, elm: RbNode, ghost c: C, ghost l: T, ghost k: Color, ghost r: T, ghost ns: set<RbNode>)
      requires At(c, Node(l, x, k, r), ns) && elm !in ns && l.Node?
      modifies this`root, ns, elm
      ensures At(c, Node(l, elm, k, r), ns - {x} + {elm})
    {
      ReplaceParts(c, l, x, k, r, elm, ns);
      NotLeft(c, Node(l, x, k, r), ns);
      ParentIn(c);
      assert CtxShape(c, x) && CtxDistinct(c);
      assert allocated(CtxNodes(c)) && allocated(Nodes(l)) && allocated(Nodes(r));
      hide Distinct, CtxDistinct;
      TakeOver(x, elm, l, k, r, Parent(c));
      assert CtxShape(c, x);
      SetChild(x, elm, elm.parent, c);
    }

    lemma ReplaceParts(c: C, l: T, x: RbNode, k: Color, r: T, elm: RbNode, ns: set<RbNode>)
      requires At(c, Node(l, x, k, r), ns) && elm !in ns
      ensures Distinct(l) && Distinct(r) && Nodes(l) !! Nodes(r) && CtxNodes(c) !! Nodes(l) && CtxNodes(c) !! Nodes(r)
      ensures x !in CtxNodes(c) && x !in Nodes(l) && x !in Nodes(r)
      ensures elm !in CtxNodes(c) && elm !in Nodes(l) && elm !in Nodes(r)
      ensures (l.Node? ==> l.elem in Nodes(l)) && (r.Node? ==> r.elem in Nodes(r))
      ensures Apart(c, Node(l, elm, k, r)) && CtxNodes(c) + Nodes(Node(l, elm, k, r)) == ns - {x} + {elm}
      ensures CtxNodes(c) <= ns && Nodes(l) <= ns && Nodes(r) <= ns && x in ns
    {
      var t: T, t': T := Node(l, x, k, r), Node(l, elm, k, r);
      assert Nodes(t) == Nodes(l) + {x} + Nodes(r) && Nodes(t') == Nodes(l) + {elm} + Nodes(r);
      assert Distinct(t) && Distinct(t');
    }

    /** From the place of the leftmost node back up to the root of the subtree, and down again. */
    lemma {:induction false} MinUp(c: C, t: T, ns: set<RbNode>)
      requires t.Node? && At(MinCtx(c, t), MinTree(t).right, ns)
      ensures At(c, WithoutMin(t), ns)
      decreases t
    {
      if !t.left.Leaf? {
        var d := InLeft(c, t.elem, t.color, t.right);
        MinUp(d, t.left, ns);
        Up(d, WithoutMin(t.left), ns);
      }
    }

    lemma {:induction false} MinDown(c: C, t: T, ns: set<RbNode>)
      requires t.Node? && At(c, WithoutMin(t), ns)
      ensures At(MinCtx(c, t), MinTree(t).right, ns)
      decreases t
    {
      if !t.left.Leaf? {
        DownLeft(c, WithoutMin(t), ns);
        MinDown(InLeft(c, t.elem, t.color, t.right), t.left, ns);
      }
    }

    /** Finds the leftmost node of a subtree. */
    method Leftmost(elm0: RbNode, ghost c: C, ghost t: T, ghost ns: set<RbNode>) returns (elm: RbNode)
      requires At(c, t, ns) && t.Node? && t.elem == elm0
      ensures elm == MinTree(t).elem && At(MinCtx(c, t), MinTree(t), ns)
    {
      hide At, Nodes, CtxNodes;
      elm := elm0;
      ghost var d, u := c, t;
      Look(d, u, ns);
      while elm.left != null
        invariant At(d, u, ns) && u.Node? && u.elem == elm && elm.left == Root(u.left)
        invariant MinCtx(d, u) == MinCtx(c, t) && MinTree(u) == MinTree(t)
        decreases u
      {
        elm := elm.left;
        DownLeft(d, u, ns);
        d, u := InLeft(d, u.elem, u.color, u.right), u.left;
        Look(d, u, ns);
      }
    }

    /** The hole that a removal leaves: what takes the place of the node removed, and what is now to be repaired. */
    ghost predicate Removed(c: C, t: T, color: Color, d: C, u: T, ns: set<RbNode>)
      reads this`root, ns
    {
      && t.Node? && At(d, u, ns) && InOrder(Plug(d, u)) == Rest(c, t)
      && (color == Red ==> Sound(d, u)) && (color == Black ==> RemovePending(d, u))
    }

    /** Takes out a node that has at most one child. */
    method RemoveOne(x: RbNode, child: RbNode?, ghost c: C, ghost t: T, ghost u: T, ghost ns: set<RbNode>)
        returns (parent: RbNode?, color: Color)
      requires At(c, t, ns) && Sound(c, t) && t.Node? && t.elem == x && child == Root(u)
      requires (t.left.Leaf? && u == t.right) || (t.right.Leaf? && u == t.left)
      modifies this`root, ns
      ensures Removed(c, t, color, c, u, ns - {x}) && parent == Parent(c)
    {
      hide At, Nodes, CtxNodes, Sound, RemovePending, InOrder, Plug, Rest;
      SpliceLeaves(c, t, u);
      SpliceOrder(c, t, u);
      parent, color := Splice(x, child, c, t, u, ns);
    }

    lemma InNodes(c: C, t: T, ns: set<RbNode>)
      requires At(c, t, ns) && t.Node?
      ensures t.elem in ns
    {
    }

    /** Where the successor of `x` hangs before and after it has taken the place of `x`. */
    lemma MinParent(c: C, l: T, x: RbNode, y: RbNode, k: Color, r: T, ns: set<RbNode>)
      requires At(InRight(c, l, x, k), r, ns) && r.Node?
      ensures Parent(MinCtx(InRight(c, l, x, k), r)) == x <==> r.left.Leaf?
      ensures Parent(MinCtx(InRight(c, l, y, k), r)) ==
              if r.left.Leaf? then y else Parent(MinCtx(InRight(c, l, x, k), r))
    {
      MinParentIn(InRight(c, l, x, k), r);
      if !r.left.Leaf? {
        MinParentSame(InRight(c, l, x, k), InRight(c, l, y, k), r);
      }
    }

    /** Takes out a node that has two children: its successor takes its place. */
    method RemoveTwo(x: RbNode, ghost c: C, ghost t: T, ghost ns: set<RbNode>)
        returns (parent: RbNode?, child: RbNode?, color: Color, ghost d: C, ghost u: T)
      requires At(c, t, ns) && Sound(c, t) && t.Node? && t.elem == x && t.left.Node? && t.right.Node?
      modifies this`root, ns
      ensures Removed(c, t, color, d, u, ns - {x}) && parent == Parent(d) && child == Root(u)
    {
      hide At, Nodes, CtxNodes, Sound, RemovePending, InOrder, Plug, Rest;
      ghost var l, r, k := t.left, t.right, t.color;
      ghost var m, base := MinTree(r), InRight(c, l, x, k);
      ghost var hole := MinCtx(base, r);
      Look(c, t, ns);
      DownRight(c, t, ns);
      var elm := Leftmost(x.right, base, r, ns);
      InNodes(hole, m, ns);
      InNodes(c, t, ns);
      Look(hole, m, ns);
      child := elm.right;
      MinParent(c, l, x, elm, k, r, ns);
      parent, color := Splice(elm, child, hole, m, m.right, ns);
      if elm.parent == x {
        parent := elm;
      }
      MinUp(base, r, ns - {elm});
      Up(base, WithoutMin(r), ns - {elm});
      Replace(x, elm, c, l, k, WithoutMin(r), ns - {elm});
      ghost var base' := InRight(c, l, elm, k);
      assert ns - {elm} - {x} + {elm} == ns - {x};
      DownRight(c, Node(l, elm, k, WithoutMin(r)), ns - {x});
      MinDown(base', r, ns - {x});
      d, u := MinCtx(base', r), m.right;
      SuccessorSound(c, t);
      SuccessorOrder(c, t);
    }

    /** Removes a node of the tree and nothing else. */
    method Remove(x: RbNode)
      requires Valid() && x in nodes
      modifies this, nodes
      ensures Valid() && nodes == old(nodes) - {x}
    {
      hide At, Nodes, CtxNodes, Sound, RemovePending, InOrder, Plug, Rest, Ordered, Balanced;
      ghost var ns := nodes;
      ghost var c, t := FocusFromRoot(x);
      RestOrdered(c, t);
      Look(c, t, ns);
      var child, parent, color;
      ghost var d, u;
      if x.left == null {
        child := x.right;
        d, u := c, t.right;
        parent, color := RemoveOne(x, child, c, t, u, ns);
      } else if x.right == null {
        child := x.left;
        d, u := c, t.left;
        parent, color := RemoveOne(x, child, c, t, u, ns);
      } else {
        parent, child, color, d, u := RemoveTwo(x, c, t, ns);
      }
      nodes := ns - {x};
      if color == Black {
        RemoveColor(parent, child, d, u);
      } else {
        SoundBalanced(d, u);
        Zip(d, u, nodes);
        tree := Plug(d, u);
      }
    }

    /** No other node has the key of `x`. */
    lemma KeysWithout(x: RbNode)
      requires Valid() && x in nodes
      ensures (set n | n in nodes - {x} :: n.key) == Keys() - {x.key}
    {
      NodesInOrder(tree);
      forall n | n in nodes && n != x
        ensures n.key != x.key
      {
        var i :| 0 <= i < |InOrder(tree)| && InOrder(tree)[i] == n;
        var j :| 0 <= j < |InOrder(tree)| && InOrder(tree)[j] == x;
      }
    }

    lemma FocusFromRoot(x: RbNode) returns (c: C, t: T)
      requires Valid() && x in nodes
      ensures At(c, t, nodes) && Sound(c, t) && t.Node? && t.elem == x && Plug(c, t) == tree
    {
      c, t := Focus(x, Top, tree, nodes);
    }

    lemma RestOrdered(c: C, t: T)
      requires Ordered(InOrder(tree)) && t.Node? && Plug(c, t) == tree
      ensures Ordered(Rest(c, t))
    {
      PlugInOrder(c, t);
      var b, l, r, a := Before(c), InOrder(t.left), InOrder(t.right), After(c);
      Regroup(b, l, t.elem, r, a);
      assert InOrder(tree) == (b + l) + ([t.elem] + (r + a));
      OrderedWithout(b + l, t.elem, r + a);
    }
  }

  lemma OrderedWithout(p: seq<RbNode>, x: RbNode, q: seq<RbNode>)
    requires Ordered(p + ([x] + q))
    ensures Ordered(p + q)
  {
    var s, s' := p + ([x] + q), p + q;
    forall i, j | 0 <= i < j < |s'|
      ensures s'[i].key < s'[j].key
    {
      assert s'[i] == s[if i < |p| then i else i + 1] && s'[j] == s[if j < |p| then j else j + 1];
    }
  }

  lemma {:induction false} MinParentIn(c: C, r: T)
    requires r.Node?
    ensures r.left.Leaf? ==> MinCtx(c, r) == c
    ensures !r.left.Leaf? ==> Parent(MinCtx(c, r)) != null && Parent(MinCtx(c, r)) in Nodes(r)
    decreases r
  {
    if !r.left.Leaf? {
      MinParentIn(InLeft(c, r.elem, r.color, r.right), r.left);
    }
  }

  lemma {:induction false} MinParentSame(c: C, c': C, r: T)
    requires r.Node? && !r.left.Leaf?
    ensures Parent(MinCtx(c, r)) == Parent(MinCtx(c', r))
    decreases r
  {
    if !r.left.left.Leaf? {
      MinParentSame(InLeft(c, r.elem, r.color, r.right), InLeft(c', r.elem, r.color, r.right), r.left);
    }
  }

  lemma SuccessorSound(c: C, t: T)
    requires Sound(c, t) && t.Node? && t.right.Node?
    ensures var m := MinTree(t.right);
            var d := MinCtx(InRight(c, t.left, m.elem, t.color), t.right);
            (m.color == Red ==> Sound(d, m.right)) && (m.color == Black ==> RemovePending(d, m.right))
  {
    var m := MinTree(t.right);
    SoundDown(c, t);
    SoundRename(c, t.left, t.elem, m.elem, t.color, t.right);
    MinSound(InRight(c, t.left, m.elem, t.color), t.right);
    SpliceLeaves(MinCtx(InRight(c, t.left, m.elem, t.color), t.right), m, m.right);
  }

  lemma PlugTop(t: T)
    ensures Plug(Top, t) == t
  {
  }

  lemma OrderedInsert(b: seq<RbNode>, x: RbNode, a: seq<RbNode>)
    requires Ordered(b + [] + a)
    requires forall i :: 0 <= i < |b| ==> b[i].key < x.key
    requires forall i :: 0 <= i < |a| ==> x.key < a[i].key
    ensures Ordered(b + [x] + a)
  {
    var s, s' := b + [] + a, b + [x] + a;
    forall i, j | 0 <= i < j < |s'|
      ensures s'[i].key < s'[j].key
    {
      assert i < |b| ==> s'[i] == s[i];
      assert j > |b| ==> s'[j] == s[j - 1];
      assert i > |b| ==> s'[i] == s[i - 1];
      assert j < |b| ==> s'[j] == s[j];
    }
  }

  lemma OrderedAround(b: seq<RbNode>, l: seq<RbNode>, x: RbNode, r: seq<RbNode>, a: seq<RbNode>)
    requires Ordered(b + (l + [x] + r) + a)
    ensures forall i :: 0 <= i < |l| ==> l[i].key < x.key
    ensures forall i :: 0 <= i < |r| ==> x.key < r[i].key
  {
    var s := b + (l + [x] + r) + a;
    assert s[|b| + |l|] == x;
    forall i | 0 <= i < |l|
      ensures l[i].key < x.key
    {
      assert s[|b| + i] == l[i];
    }
    forall i | 0 <= i < |r|
      ensures x.key < r[i].key
    {
      assert s[|b| + |l| + 1 + i] == r[i];
    }
  }

  ghost predicate Ordered(s: seq<RbNode>) {
    forall i, j :: 0 <= i < j < |s| ==> s[i].key < s[j].key
  }

  lemma {:induction false} PlugNode(c: C, t: T)
    requires t.Node?
    ensures Plug(c, t).Node?
    decreases c
  {
    if !c.Top? {
      PlugNode(c.up, Close(c, t));
    }
  }

  lemma PendingAbove(c: C, t: T)
    requires InsertPending(c, t) && RedAbove(c)
    ensures t.Node? && BlackAbove(c.up)
  {
  }

  /** A node with a right child: none of its parts share a node. */
  lemma PartsRight(t: T)
    requires t.Node? && t.right.Node? && Distinct(t)
    ensures var a, b, d, n, m := t.left, t.right.left, t.right.right, t.elem, t.right.elem;
            && n != m && n !in Nodes(a) && n !in Nodes(b) && n !in Nodes(d)
            && m !in Nodes(a) && m !in Nodes(b) && m !in Nodes(d)
            && Nodes(a) !! Nodes(b) && Nodes(a) !! Nodes(d) && Nodes(b) !! Nodes(d)
            && (b.Node? ==> b.elem in Nodes(b)) && Distinct(b)
            && Nodes(t) == Nodes(a) + Nodes(b) + Nodes(d) + {n, m}
  {
    assert Nodes(t.right) == Nodes(t.right.left) + {t.right.elem} + Nodes(t.right.right) && Distinct(t.right);
  }

  lemma PartsLeft(t: T)
    requires t.Node? && t.left.Node? && Distinct(t)
    ensures var a, b, d, n, m := t.right, t.left.right, t.left.left, t.elem, t.left.elem;
            && n != m && n !in Nodes(a) && n !in Nodes(b) && n !in Nodes(d)
            && m !in Nodes(a) && m !in Nodes(b) && m !in Nodes(d)
            && Nodes(a) !! Nodes(b) && Nodes(a) !! Nodes(d) && Nodes(b) !! Nodes(d)
            && (b.Node? ==> b.elem in Nodes(b)) && Distinct(b)
            && Nodes(t) == Nodes(a) + Nodes(b) + Nodes(d) + {n, m}
  {
    assert Nodes(t.left) == Nodes(t.left.left) + {t.left.elem} + Nodes(t.left.right) && Distinct(t.left);
  }

  lemma ParentIn(c: C)
    ensures Parent(c) != null ==> Parent(c) in CtxNodes(c)
  {
  }
}
