/** The link updates of a deletion, as facts about stores of node fields. */
module RbErasing {
  import opened RbTheory
  import opened RbErase
  import opened RbNodes
  import opened RbRelink

  // ----- black sibling with a red child

  lemma {:induction false} EraseTripleOuter<V>(h: Store<V>, p: Path<TreeNode<V>>, t: Tree<TreeNode<V>>)
    requires !p.Top? && Sibling(p).Node? && Stored(h, Plug(p, t))
    requires IsRed(Sibling(p).right) || IsRed(Sibling(p).left)
    ensures var s, w := EraseTriple(p, t), Attach(p, t, p.colour);
            Plug(p.up, w) == Plug(p, t) && InOrder(w) == InOrder(s) && w.item in {s.left.item, s.right.item} &&
            s.left.item in h && s.right.item in h &&
            h[s.left.item].left == Root(s.left.left) && h[s.right.item].right == Root(s.right.right)
  {
    EraseTripleInOrder(p, t);
    PlugLinked(h, p, t);
    assert Linked(h, Sibling(p), p.item);
    assert Linked(h, Sibling(p).left, Sibling(p).item) && Linked(h, Sibling(p).right, Sibling(p).item);
  }

  lemma {:induction false} EraseRotation<V>(h: Store<V>, p: Path<TreeNode<V>>, t: Tree<TreeNode<V>>)
    requires !p.Top? && Sibling(p).Node? && Stored(h, Plug(p, t)) && Items(Plug(p, t)) == h.Keys
    requires IsRed(Sibling(p).right) || IsRed(Sibling(p).left)
    ensures var s, top, done := EraseTriple(p, t), p.item, Plug(p.up, EraseTriple(p, t));
            {top, s.item, s.left.item, s.right.item} <= h.Keys &&
            (s.left.right.Node? ==> s.left.right.item in h) && (s.right.left.Node? ==> s.right.left.item in h) &&
            (h[top].parent != null ==> h[top].parent in h && h[top].parent !in {top, s.item}) &&
            s.item != top && (h[top].parent == null <==> top == Root(Plug(p, t))) &&
            Stored(WithRotation(h, s, top), done) && Items(done) == Items(Plug(p, t)) &&
            Root(done) == if top == Root(Plug(p, t)) then s.item else Root(Plug(p, t))
  {
    var s, top := EraseTriple(p, t), p.item;
    EraseTripleOuter(h, p, t);
    TripleUpdates(h, p.up, Attach(p, t, p.colour), s);
    EraseTripleStored(h, WithRotation(h, s, top), p, t);
  }

  // ----- black sibling without red children

  // The nodes and the items of a tree whose innermost part is rearranged.
  lemma {:induction false} Rearranged<V>(up: Path<TreeNode<V>>, w: Tree<TreeNode<V>>, s: Tree<TreeNode<V>>)
    requires InOrder(w) == InOrder(s)
    ensures Items(Plug(up, s)) == Items(Plug(up, w)) && (Distinct(Plug(up, w)) <==> Distinct(Plug(up, s)))
  {
    PlugInOrder(up, w);
    PlugInOrder(up, s);
    SameItems(Plug(up, w), Plug(up, s));
  }

  lemma {:induction false} SiblingReddenedStored<V>(h: Store<V>, p: Path<TreeNode<V>>, t: Tree<TreeNode<V>>)
    requires !p.Top? && Sibling(p).Node? && Stored(h, Plug(p, t)) && Items(Plug(p, t)) == h.Keys
    ensures var done := Plug(p.up, SiblingReddened(p, t));
            {p.item, Sibling(p).item} <= h.Keys && h[p.item].colour == p.colour &&
            Stored(WithColour(WithColour(h, p.item, Black), Sibling(p).item, Red), done) &&
            Items(done) == Items(Plug(p, t)) && Root(done) == Root(Plug(p, t))
  {
    var s, w := SiblingReddened(p, t), Attach(p, t, p.colour);
    var y, n := p.item, Sibling(p).item;
    StoredParts(h, p, t);
    assert n in Items(Sibling(p));
    var h' := WithColour(WithColour(h, y, Black), n, Red);
    LinkedSame(h, h', t, y);
    Reparented(h, h', Sibling(p), y, y, Red);
    PathSame(h, h', p.up, y);
    assert Linked(h', s, ParentItem(p.up));
    PlugLinked(h', p.up, s);
    assert InOrder(s) == InOrder(w);
    Rearranged(p.up, w, s);
    SameRoot(p.up, w, s);
  }

  // ----- red sibling

  // n takes the place of its parent y, which takes over the near nephew c.
  ghost function WithRaise<V>(h: Store<V>, y: TreeNode<V>, n: TreeNode<V>, c: TreeNode<V>, lefty: bool): Store<V>
    requires {y, n, c} <= h.Keys && (h[y].parent != null ==> h[y].parent in h)
  {
    var h1 := WithParent(WithChild(h, h[y].parent, y, n), n, h[y].parent);
    var h2 := WithColour(WithColour(h1, y, Red), n, Black);
    if lefty then WithLeft(WithParent(WithParent(WithRight(h2, y, c), c, y), y, n), n, y)
    else WithRight(WithParent(WithParent(WithLeft(h2, y, c), c, y), y, n), n, y)
  }

  // What that leaves in each field, when all nodes differ.
  lemma {:induction false} RaiseFields<V>(h: Store<V>, y: TreeNode<V>, n: TreeNode<V>, c: TreeNode<V>, lefty: bool)
    requires {y, n, c} <= h.Keys && (h[y].parent != null ==> h[y].parent in h)
    requires y != n && n != c && c != y && h[y].parent !in {y, n, c}
    ensures var h', g := WithRaise(h, y, n, c, lefty), h[y].parent;
            {y, n, c} <= h'.Keys && h'[c] == h[c].(parent := y) &&
            h'[y] == (if lefty then Links(h[y].left, c, n, Red) else Links(c, h[y].right, n, Red)) &&
            h'[n] == (if lefty then Links(y, h[n].right, g, Black) else Links(h[n].left, y, g, Black)) &&
            (g != null ==>
               g in h' && h'[g] == if h[g].left == y then h[g].(left := n) else h[g].(right := n)) &&
            Same(h, h', h.Keys - {y, n, c, g})
  {
  }

  ghost function WithSiblingRaised<V>(h: Store<V>, p: Path<TreeNode<V>>): Store<V>
    requires !p.Top? && Sibling(p).Node? && Sibling(p).left.Node? && Sibling(p).right.Node?
    requires {p.item, Sibling(p).item, Sibling(p).left.item, Sibling(p).right.item} <= h.Keys
    requires h[p.item].parent != null ==> h[p.item].parent in h
  {
    WithRaise(h, p.item, Sibling(p).item, Nephew(p).item, p.InLeft?)
  }

  // The near nephew of the hole.
  function Nephew<T>(p: Path<T>): Tree<T>
    requires !p.Top? && Sibling(p).Node?
  {
    if p.InLeft? then Sibling(p).left else Sibling(p).right
  }

  ghost predicate RaisedRelinked<V>(h: Store<V>, h': Store<V>, p: Path<TreeNode<V>>, t: Tree<TreeNode<V>>)
    requires !p.Top? && Sibling(p).Node? && Nephew(p).Node?
  {
    var y, n, c, q := p.item, Sibling(p), Nephew(p).item, SiblingRaised(p);
    {y, n.item, c} <= h'.Keys && c in h && h'[c] == h[c].(parent := y) &&
    h'[y] == AboveHole(q, Root(t)) && h'[n.item] == AboveHole(q.up, y) &&
    (!p.up.Top? ==> p.up.item in h' && h'[p.up.item] == AboveHole(p.up, n.item)) &&
    Same(h, h', Items(Plug(p, t)) - {y, n.item, c, ParentItem(p.up)})
  }

  // The nodes a raise writes to are pairwise different.
  lemma {:induction false} RaisedApart<V>(p: Path<TreeNode<V>>, t: Tree<TreeNode<V>>)
    requires !p.Top? && Sibling(p).Node? && Nephew(p).Node? && Apart(p, t)
    ensures var y, n, c, g := p.item, Sibling(p).item, Nephew(p).item, ParentItem(p.up);
            y != n && n != c && c != y && g !in {y, n, c} && {y, n, c} <= PathItems(p) &&
            (g != null ==> g in PathItems(p)) && (p.up.InRight? ==> Root(p.up.left) != y)
    ensures Items(Nephew(p)) <= Items(Sibling(p))
  {
    var s := Sibling(p);
    assert Items(s) == Items(s.left) + {s.item} + Items(s.right);
    assert Nephew(p).item in Items(Nephew(p));
    if !p.up.Top? {
      assert PathItems(p.up) == {p.up.item} + Items(Sibling(p.up)) + PathItems(p.up.up);
      assert Sibling(p.up).Node? ==> Sibling(p.up).item in Items(Sibling(p.up));
    }
  }

  lemma {:induction false} RaisedUpdates<V>(h: Store<V>, p: Path<TreeNode<V>>, t: Tree<TreeNode<V>>)
    requires !p.Top? && Sibling(p).Node? && Sibling(p).left.Node? && Sibling(p).right.Node?
    requires Stored(h, Plug(p, t)) && Items(Plug(p, t)) == h.Keys
    ensures {p.item, Sibling(p).item, Sibling(p).left.item, Sibling(p).right.item} <= h.Keys
    ensures h[p.item].parent == ParentItem(p.up) && (h[p.item].parent != null ==> h[p.item].parent in h)
    ensures h[p.item].parent !in {p.item, Sibling(p).item} && p.item != Sibling(p).item
    ensures RaisedRelinked(h, WithSiblingRaised(h, p), p, t)
  {
    StoredParts(h, p, t);
    RaisedApart(p, t);
    assert Linked(h, Sibling(p), p.item);
    RaiseFields(h, p.item, Sibling(p).item, Nephew(p).item, p.InLeft?);
  }

  function FarNephew<T>(p: Path<T>): Tree<T>
    requires !p.Top? && Sibling(p).Node?
  {
    if p.InLeft? then Sibling(p).right else Sibling(p).left
  }

  // The parts that keep all their fields.
  lemma {:induction false} RaisedRest<V>(h: Store<V>, h': Store<V>, p: Path<TreeNode<V>>, t: Tree<TreeNode<V>>)
    requires !p.Top? && Sibling(p).Node? && Nephew(p).Node? && Apart(p, t)
    requires RaisedRelinked(h, h', p, t)
    ensures Same(h, h', Items(t)) && Same(h, h', Items(FarNephew(p)))
    ensures Same(h, h', Items(Nephew(p)) - {Root(Nephew(p))})
    ensures Same(h, h', PathItems(p.up) - {ParentItem(p.up)})
  {
    var s, y, n, c := Sibling(p), p.item, Sibling(p).item, Nephew(p).item;
    PlugItems(p, t);
    RaisedApart(p, t);
    assert Items(s) == Items(s.left) + {n} + Items(s.right);
    assert PathItems(p) == {y} + Items(s) + PathItems(p.up);
    assert c in Items(Nephew(p));
    assert !p.up.Top? ==> p.up.item in PathItems(p.up);
    var all := Items(Plug(p, t)) - {y, n, c, ParentItem(p.up)};
    SameWithin(h, h', all, Items(t));
    SameWithin(h, h', all, Items(FarNephew(p)));
    SameWithin(h, h', all, Items(Nephew(p)) - {Root(Nephew(p))});
    SameWithin(h, h', all, PathItems(p.up) - {ParentItem(p.up)});
  }

  lemma {:induction false} RaisedStored<V>(h: Store<V>, h': Store<V>, p: Path<TreeNode<V>>, t: Tree<TreeNode<V>>)
    requires !p.Top? && Sibling(p).Node? && Nephew(p).Node? && Stored(h, Plug(p, t))
    requires RaisedRelinked(h, h', p, t)
    ensures Stored(h', Plug(SiblingRaised(p), t))
    ensures Items(Plug(SiblingRaised(p), t)) == Items(Plug(p, t))
  {
    var q, y, n := SiblingRaised(p), p.item, Sibling(p).item;
    StoredParts(h, p, t);
    RaisedRest(h, h', p, t);
    LinkedSame(h, h', t, y);
    assert Linked(h, Sibling(p), y);
    MovedLinked(h, h', Nephew(p), n, y);
    LinkedSame(h, h', FarNephew(p), n);
    HoleChanged(h, h', p.up, y, n);
    assert PathLinked(h', q.up, y);
    PlugLinked(h', q, t);
    SiblingRaisedInOrder(p, t);
    SameItems(Plug(p, t), Plug(q, t));
  }

  lemma {:induction false} RaisedRoot<V>(p: Path<TreeNode<V>>, t: Tree<TreeNode<V>>)
    requires !p.Top? && Sibling(p).Node? && PathDistinct(p)
    ensures Root(Plug(SiblingRaised(p), t)) == if p.item == Root(Plug(p, t)) then Sibling(p).item else Root(Plug(p, t))
  {
    var w := Attach(p, t, p.colour);
    var s := Sibling(p);
    var v := if p.InLeft? then Node(Node(t, p.item, Red, s.left), s.item, Black, s.right)
             else Node(s.left, s.item, Black, Node(s.right, p.item, Red, t));
    assert Plug(SiblingRaised(p), t) == Plug(p.up, v);
    RootIsTop(p, t);
    if !p.up.Top? {
      PlugRootFixed(p.up, w, v);
    }
  }

  lemma {:induction false} Raising<V>(h: Store<V>, p: Path<TreeNode<V>>, t: Tree<TreeNode<V>>)
    requires !p.Top? && Sibling(p).Node? && Sibling(p).left.Node? && Sibling(p).right.Node?
    requires Stored(h, Plug(p, t)) && Items(Plug(p, t)) == h.Keys
    ensures {p.item, Sibling(p).item, Sibling(p).left.item, Sibling(p).right.item} <= h.Keys
    ensures h[p.item].parent != null ==> h[p.item].parent in h
    ensures h[p.item].parent !in {p.item, Sibling(p).item} && p.item != Sibling(p).item
    ensures h[p.item].parent == null <==> p.item == Root(Plug(p, t))
    ensures var done := Plug(SiblingRaised(p), t);
            Stored(WithSiblingRaised(h, p), done) && Items(done) == Items(Plug(p, t)) &&
            Root(done) == if p.item == Root(Plug(p, t)) then Sibling(p).item else Root(Plug(p, t))
  {
    StoredParts(h, p, t);
    RaisedUpdates(h, p, t);
    RaisedStored(h, WithSiblingRaised(h, p), p, t);
    RaisedRoot(p, t);
    RootIsTop(p, t);
  }
}
