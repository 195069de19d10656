/** Moving a node pointer through a stored tree. */
module RbWalk {
  import opened RbTheory
  import opened RbErase
  import opened RbPosition
  import opened RbNodes
  import opened RbRelink

  // The node n heads the subtree s of t that stands at p.
  ghost predicate At<V>(t: Tree<TreeNode<V>>, p: Path<TreeNode<V>>, s: Tree<TreeNode<V>>, n: TreeNode?<V>)
    reads Items(t)
  {
    var h := Snapshot(Items(t));
    Plug(p, s) == t && Root(s) == n && Stored(h, t) &&
    PathLinked(h, p, n) && Linked(h, s, ParentItem(p)) && Apart(p, s)
  }

  lemma {:induction false} AtSubtree<V>(t: Tree<TreeNode<V>>, p: Path<TreeNode<V>>, s: Tree<TreeNode<V>>)
    requires Stored(Snapshot(Items(t)), t) && Plug(p, s) == t
    ensures At(t, p, s, Root(s)) && Items(s) <= Items(t) && PathItems(p) <= Items(t)
  {
    StoredParts(Snapshot(Items(t)), p, s);
  }

  // One step down to either side.
  lemma {:induction false} AtChildren<V>(t: Tree<TreeNode<V>>, p: Path<TreeNode<V>>, s: Tree<TreeNode<V>>,
                                         n: TreeNode<V>)
    requires At(t, p, s, n)
    ensures s.Node? && n == s.item && n.left == Root(s.left) && n.right == Root(s.right) && n.colour == s.colour
    ensures At(t, InLeft(p, s.item, s.colour, s.right), s.left, n.left)
    ensures At(t, InRight(s.left, s.item, s.colour, p), s.right, n.right)
  {
    AtSubtree(t, p, s);
    assert n in Items(s);
    assert Snapshot(Items(t))[n] == Links(n.left, n.right, n.parent, n.colour);
    AtSubtree(t, InLeft(p, s.item, s.colour, s.right), s.left);
    AtSubtree(t, InRight(s.left, s.item, s.colour, p), s.right);
  }

  // One step up, and which side it was.
  lemma {:induction false} AtParent<V>(t: Tree<TreeNode<V>>, p: Path<TreeNode<V>>, s: Tree<TreeNode<V>>, n: TreeNode<V>)
    requires At(t, p, s, n)
    ensures n.parent == ParentItem(p)
    ensures n.parent != null ==>
              !p.Top? && (n == n.parent.left <==> p.InLeft?) && (n == n.parent.right <==> p.InRight?) &&
              At(t, p.up, Attach(p, s, p.colour), n.parent)
    ensures n.parent == null ==> p.Top?
  {
    AtSubtree(t, p, s);
    assert n in Items(s);
    assert Snapshot(Items(t))[n] == Links(n.left, n.right, n.parent, n.colour);
    if !p.Top? {
      AtSubtree(t, p.up, Attach(p, s, p.colour));
      AtChildren(t, p.up, Attach(p, s, p.colour), p.item);
      if Sibling(p).Node? {
        assert Sibling(p).item in Items(Sibling(p));
      }
    }
  }

  method DescendLeft<V>(n: TreeNode<V>, ghost t: Tree<TreeNode<V>>, ghost p: Path<TreeNode<V>>,
                        ghost s: Tree<TreeNode<V>>)
    returns (r: TreeNode<V>)
    requires s.Node? && At(t, p, s, n)
    ensures r == Leftmost(p, s).1.item
  {
    r := n;
    ghost var q, u := p, s;
    AtChildren(t, q, u, r);
    while r.left != null
      invariant At(t, q, u, r) && u.Node? && r.left == Root(u.left)
      invariant Leftmost(q, u) == Leftmost(p, s)
      decreases u
    {
      AtChildren(t, q, u, r);
      q, u := InLeft(q, u.item, u.colour, u.right), u.left;
      r := r.left;
      AtChildren(t, q, u, r);
    }
  }

  method DescendRight<V>(n: TreeNode<V>, ghost t: Tree<TreeNode<V>>, ghost p: Path<TreeNode<V>>,
                         ghost s: Tree<TreeNode<V>>)
    returns (r: TreeNode<V>)
    requires s.Node? && At(t, p, s, n)
    ensures r == Rightmost(p, s).1.item
  {
    r := n;
    ghost var q, u := p, s;
    AtChildren(t, q, u, r);
    while r.right != null
      invariant At(t, q, u, r) && u.Node? && r.right == Root(u.right)
      invariant Rightmost(q, u) == Rightmost(p, s)
      decreases u
    {
      AtChildren(t, q, u, r);
      q, u := InRight(u.left, u.item, u.colour, q), u.right;
      r := r.right;
      AtChildren(t, q, u, r);
    }
  }

  // The nearest ancestor that has n on its left.
  method ClimbRight<V>(n: TreeNode<V>, ghost t: Tree<TreeNode<V>>, ghost p: Path<TreeNode<V>>,
                       ghost s: Tree<TreeNode<V>>)
    returns (r: TreeNode?<V>)
    requires s.Node? && At(t, p, s, n)
    ensures var k := |Before(p)| + |InOrder(s)|;
            k <= |InOrder(t)| && r == if k < |InOrder(t)| then InOrder(t)[k] else null
  {
    var c := n;
    ghost var q, u := p, s;
    while c.parent != null && c == c.parent.right
      invariant At(t, q, u, c) && u.Node?
      invariant |Before(q)| + |InOrder(u)| == |Before(p)| + |InOrder(s)|
      decreases q
    {
      AtParent(t, q, u, c);
      q, u := q.up, Attach(q, u, q.colour);
      c := c.parent;
    }
    AtParent(t, q, u, c);
    PlugInOrder(q, u);
    if !q.Top? {
      NodeUnique(q.up, Attach(q, u, q.colour));
    }
    r := c.parent;
  }

  // The nearest ancestor that has n on its right.
  method ClimbLeft<V>(n: TreeNode<V>, ghost t: Tree<TreeNode<V>>, ghost p: Path<TreeNode<V>>,
                      ghost s: Tree<TreeNode<V>>)
    returns (r: TreeNode?<V>)
    requires s.Node? && At(t, p, s, n)
    ensures |Before(p)| <= |InOrder(t)|
    ensures r == if |Before(p)| > 0 then InOrder(t)[|Before(p)| - 1] else null
  {
    var c := n;
    ghost var q, u := p, s;
    PlugInOrder(p, s);
    while c.parent != null && c == c.parent.left
      invariant At(t, q, u, c) && u.Node?
      invariant |Before(q)| == |Before(p)|
      decreases q
    {
      AtParent(t, q, u, c);
      q, u := q.up, Attach(q, u, q.colour);
      c := c.parent;
    }
    AtParent(t, q, u, c);
    if !q.Top? {
      NodeOnLeft(q, u);
    }
    r := c.parent;
  }

  // An ancestor that has the hole on its right stands right before the hole's items.
  lemma {:induction false} NodeOnLeft<T>(p: Path<T>, t: Tree<T>)
    requires p.InRight?
    ensures 0 < |Before(p)| <= |InOrder(Plug(p, t))| && InOrder(Plug(p, t))[|Before(p)| - 1] == p.item
  {
    NodeUnique(p.up, Attach(p, t, p.colour));
  }

  // The next node in order, or null after the last one.
  method WalkRight<V>(n: TreeNode<V>, ghost t: Tree<TreeNode<V>>, ghost i: nat) returns (r: TreeNode?<V>)
    requires Stored(Snapshot(Items(t)), t) && i < |InOrder(t)| && InOrder(t)[i] == n
    ensures r == if i + 1 < |InOrder(t)| then InOrder(t)[i + 1] else null
  {
    ghost var (p, s) := NodeAt(Top, t, i);
    NodeAtMeaning(Top, t, i);
    AtSubtree(t, p, s);
    AtChildren(t, p, s, n);
    if n.right != null {
      ghost var q := InRight(s.left, s.item, s.colour, p);
      r := DescendLeft(n.right, t, q, s.right);
      LeftmostMeaning(q, s.right);
      NodeUnique(Leftmost(q, s.right).0, Leftmost(q, s.right).1);
    } else {
      r := ClimbRight(n, t, p, s);
    }
  }

  // The previous node in order, or null before the first one.
  method WalkLeft<V>(n: TreeNode<V>, ghost t: Tree<TreeNode<V>>, ghost i: nat) returns (r: TreeNode?<V>)
    requires Stored(Snapshot(Items(t)), t) && i < |InOrder(t)| && InOrder(t)[i] == n
    ensures r == if i > 0 then InOrder(t)[i - 1] else null
  {
    ghost var (p, s) := NodeAt(Top, t, i);
    NodeAtMeaning(Top, t, i);
    AtSubtree(t, p, s);
    AtChildren(t, p, s, n);
    if n.left != null {
      ghost var q := InLeft(p, s.item, s.colour, s.right);
      r := DescendRight(n.left, t, q, s.left);
      RightmostMeaning(q, s.left);
      NodeUnique(Rightmost(q, s.left).0, Rightmost(q, s.left).1);
    } else {
      r := ClimbLeft(n, t, p, s);
    }
  }
}
