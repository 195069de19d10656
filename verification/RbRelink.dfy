/** The link updates of the balancing steps, as facts about stores of node fields. */
module RbRelink {
  import opened RbTheory
  import opened RbErase
  import opened RbNodes

  // A whole tree, linked, with every node in one place only.
  ghost predicate Stored<V>(h: Store<V>, t: Tree<TreeNode<V>>) {
    Linked(h, t, null) && Distinct(t)
  }

  ghost function WithColour<V>(h: Store<V>, n: TreeNode<V>, c: Colour): Store<V>
    requires n in h
  {
    h[n := h[n].(colour := c)]
  }

  ghost function WithParent<V>(h: Store<V>, n: TreeNode?<V>, p: TreeNode?<V>): Store<V>
    requires n != null ==> n in h
  {
    if n == null then h else h[n := h[n].(parent := p)]
  }

  // The link that led from g to `top` leads to y.
  ghost function WithChild<V>(h: Store<V>, g: TreeNode?<V>, top: TreeNode<V>, y: TreeNode?<V>): Store<V>
    requires g != null ==> g in h
  {
    if g == null then h
    else if h[g].left == top then h[g := h[g].(left := y)]
    else h[g := h[g].(right := y)]
  }

  ghost function WithLeft<V>(h: Store<V>, n: TreeNode<V>, l: TreeNode?<V>): Store<V>
    requires n in h
  {
    h[n := h[n].(left := l)]
  }

  ghost function WithRight<V>(h: Store<V>, n: TreeNode<V>, r: TreeNode?<V>): Store<V>
    requires n in h
  {
    h[n := h[n].(right := r)]
  }

  // y becomes the parent of x and z, which get b and c.
  ghost function WithChildren<V>(h: Store<V>, x: TreeNode<V>, y: TreeNode<V>, z: TreeNode<V>,
                                 b: TreeNode?<V>, c: TreeNode?<V>): (h': Store<V>)
    requires {x, y, z} <= h.Keys && (b != null ==> b in h) && (c != null ==> c in h)
    ensures h'.Keys == h.Keys
  {
    var h1 := WithRight(WithLeft(h, y, x), y, z);
    var h2 := WithParent(WithParent(h1, x, y), z, y);
    var h3 := WithLeft(WithRight(h2, x, b), z, c);
    WithParent(WithParent(h3, b, x), c, z)
  }

  // In addition y takes the place of `top`.
  ghost function WithTriple<V>(h: Store<V>, top: TreeNode<V>, x: TreeNode<V>, y: TreeNode<V>, z: TreeNode<V>,
                               b: TreeNode?<V>, c: TreeNode?<V>): (h': Store<V>)
    requires {top, x, y, z} <= h.Keys && (b != null ==> b in h) && (c != null ==> c in h)
    requires h[top].parent != null ==> h[top].parent in h
    ensures h'.Keys == h.Keys
  {
    WithChildren(WithParent(WithChild(h, h[top].parent, top, y), y, h[top].parent), x, y, z, b, c)
  }

  // The colours of the triple s.
  ghost function WithTripleColours<V>(h: Store<V>, s: Tree<TreeNode<V>>): Store<V>
    requires s.Node? && s.left.Node? && s.right.Node?
    requires {s.item, s.left.item, s.right.item} <= h.Keys
  {
    WithColour(WithColour(WithColour(h, s.item, s.colour), s.left.item, s.left.colour), s.right.item, s.right.colour)
  }

  lemma {:induction false} StoredParts<V>(h: Store<V>, p: Path<TreeNode<V>>, t: Tree<TreeNode<V>>)
    ensures Stored(h, Plug(p, t)) <==> PathLinked(h, p, Root(t)) && Linked(h, t, ParentItem(p)) && Apart(p, t)
    ensures Items(Plug(p, t)) == Items(t) + PathItems(p)
  {
    PlugLinked(h, p, t);
    PlugItems(p, t);
  }

  // The root of a tree that is right outside a hole is black.
  lemma {:induction false} PathRootBlack<T>(p: Path<T>, t: Tree<T>)
    requires !p.Top? && PathOk(p, BlackHeight(t))
    ensures Plug(p, t).Node? && Plug(p, t).colour.Black?
  {
    if !p.up.Top? {
      PathRootBlack(p.up, Attach(p, t, p.colour));
    }
  }

  lemma {:induction false} SameWithin<V>(h: Store<V>, h': Store<V>, all: set<TreeNode<V>>, some: set<TreeNode<V>>)
    requires Same(h, h', all) && some <= all
    ensures Same(h, h', some)
  {
    forall n | n in some && n in h ensures n in h' && h'[n] == h[n] {
      assert n in all;
    }
  }

  // Which parts of the tree keep all their fields when only g, y and u change.
  lemma {:induction false} ThreeChanged<V>(h: Store<V>, h': Store<V>, p: Path<TreeNode<V>>, t: Tree<TreeNode<V>>)
    requires !p.Top? && !p.up.Top? && Sibling(p.up).Node? && Apart(p, t)
    requires Same(h, h', Items(t) + PathItems(p) - {p.up.item, p.item, Sibling(p.up).item})
    ensures Same(h, h', Items(t)) && Same(h, h', Items(Sibling(p)))
    ensures Same(h, h', Items(Sibling(p.up)) - {Sibling(p.up).item}) && Same(h, h', PathItems(p.up.up))
  {
    var g := p.up;
    var all := Items(t) + PathItems(p) - {g.item, p.item, Sibling(g).item};
    assert PathItems(p) == {p.item} + Items(Sibling(p)) + PathItems(g);
    assert PathItems(g) == {g.item} + Items(Sibling(g)) + PathItems(g.up);
    assert Sibling(g).item in Items(Sibling(g));
    assert PathDistinct(g);
    SameWithin(h, h', all, Items(t));
    SameWithin(h, h', all, Items(Sibling(p)));
    SameWithin(h, h', all, Items(Sibling(g)) - {Sibling(g).item});
    SameWithin(h, h', all, PathItems(g.up));
  }

  lemma {:induction false} PlugRoot<T>(p: Path<T>, t: Tree<T>)
    requires !p.Top?
    ensures Plug(p, t).Node? && Plug(p, t).item in PathItems(p)
  {
    if !p.up.Top? {
      PlugRoot(p.up, Attach(p, t, p.colour));
    }
  }

  // An ancestor is the root exactly when there is nothing above it.
  lemma {:induction false} RootIsTop<T>(p: Path<T>, t: Tree<T>)
    requires !p.Top? && PathDistinct(p)
    ensures Plug(p, t).Node? && (Plug(p, t).item == p.item <==> p.up.Top?)
  {
    if p.up.Top? {
      assert Plug(p, t) == Attach(p, t, p.colour);
    } else {
      PlugRoot(p.up, Attach(p, t, p.colour));
    }
  }

  // Grandparent, parent and uncle are three nodes; the root is black, and it is one of
  // them only if it is the grandparent.
  lemma {:induction false} ThreeApart<V>(h: Store<V>, p: Path<TreeNode<V>>, t: Tree<TreeNode<V>>)
    requires !p.Top? && !p.up.Top? && Sibling(p.up).Node? && Stored(h, Plug(p, t))
    requires PathOk(p, BlackHeight(t))
    ensures var g, y, u, r := p.up.item, p.item, Sibling(p.up).item, Root(Plug(p, t));
            {g, y, u} <= Items(Plug(p, t)) && g != y && y != u && u != g &&
            r != null && r in Items(Plug(p, t)) && r in h && h[r].colour == Black &&
            r != y && r != u && (r == g <==> p.up.up.Top?)
  {
    StoredParts(h, p, t);
    PathRootBlack(p, t);
    RootIsTop(p, t);
    RootIsTop(p.up, Attach(p, t, p.colour));
    PlugRoot(p, t);
    var g := p.up;
    assert PathItems(p) == {p.item} + Items(Sibling(p)) + PathItems(g);
    assert PathItems(g) == {g.item} + Items(Sibling(g)) + PathItems(g.up);
    assert PathDistinct(g);
    assert Sibling(g).item in Items(Sibling(g));
    if !g.up.Top? {
      PlugRoot(g.up, Attach(g, Attach(p, t, p.colour), g.colour));
    }
  }

  lemma {:induction false} PushBlackDownStored<V>(h: Store<V>, h': Store<V>, p: Path<TreeNode<V>>, t: Tree<TreeNode<V>>)
    requires !p.Top? && !p.up.Top? && Sibling(p.up).Node? && Stored(h, Plug(p, t))
    requires var g, y, u := p.up.item, p.item, Sibling(p.up).item;
             {g, y, u} <= h.Keys && {g, y, u} <= h'.Keys &&
             h'[g] == h[g].(colour := if p.up.up.Top? then Black else Red) &&
             h'[y] == h[y].(colour := Black) && h'[u] == h[u].(colour := Black) &&
             Same(h, h', Items(t) + PathItems(p) - {g, y, u})
    ensures Stored(h', Plug(p.up.up, PushBlackDown(p, t)))
    ensures Items(Plug(p.up.up, PushBlackDown(p, t))) == Items(Plug(p, t))
    ensures Root(Plug(p.up.up, PushBlackDown(p, t))) == Root(Plug(p, t))
  {
    var g := p.up;
    StoredParts(h, p, t);
    ThreeChanged(h, h', p, t);
    LinkedSame(h, h', t, p.item);
    LinkedSame(h, h', Sibling(p), p.item);
    assert PathDistinct(g) && PathLinked(h, g, p.item);
    Reparented(h, h', Sibling(g), g.item, g.item, Black);
    PathSame(h, h', g.up, g.item);
    assert Linked(h', Attach(p, t, Black), g.item);
    PlugLinked(h', g.up, PushBlackDown(p, t));
    PushBlackDownDistinct(p, t);
  }

  // The four colour changes, in the order in which they are made.
  lemma {:induction false} PushBlackDownUpdates<V>(h: Store<V>, p: Path<TreeNode<V>>, t: Tree<TreeNode<V>>,
                                                   root: TreeNode?<V>)
    requires !p.Top? && !p.up.Top? && Sibling(p.up).Node? && Stored(h, Plug(p, t))
    requires PathOk(p, BlackHeight(t)) && root == Root(Plug(p, t)) && Items(Plug(p, t)) <= h.Keys
    ensures var g, y, u := p.up.item, p.item, Sibling(p.up).item;
            var done := Plug(p.up.up, PushBlackDown(p, t));
            root != null && {g, y, u, root} <= Items(Plug(p, t)) &&
            Stored(WithColour(WithColour(WithColour(WithColour(h, g, Red), y, Black), u, Black), root, Black), done) &&
            Items(done) == Items(Plug(p, t)) && Root(done) == root
  {
    ThreeApart(h, p, t);
    var g, y, u := p.up.item, p.item, Sibling(p.up).item;
    var h' := WithColour(WithColour(WithColour(WithColour(h, g, Red), y, Black), u, Black), root, Black);
    StoredParts(h, p, t);
    PushBlackDownStored(h, h', p, t);
  }

  lemma {:induction false} PushBlackDownDistinct<V>(p: Path<TreeNode<V>>, t: Tree<TreeNode<V>>)
    requires !p.Top? && !p.up.Top? && Distinct(Plug(p, t))
    ensures Distinct(Plug(p.up.up, PushBlackDown(p, t)))
    ensures Items(Plug(p.up.up, PushBlackDown(p, t))) == Items(Plug(p, t))
    ensures Root(Plug(p.up.up, PushBlackDown(p, t))) == Root(Plug(p, t))
  {
    var was := Attach(p.up, Attach(p, t, p.colour), p.up.colour);
    PlugInOrder(p.up.up, was);
    PlugInOrder(p.up.up, PushBlackDown(p, t));
    assert InOrder(PushBlackDown(p, t)) == InOrder(was);
    assert Plug(p, t) == Plug(p.up.up, was);
    SameItems(Plug(p, t), Plug(p.up.up, PushBlackDown(p, t)));
    SameRoot(p.up.up, was, PushBlackDown(p, t));
  }

  lemma {:induction false} SameRoot<V>(p: Path<TreeNode<V>>, t: Tree<TreeNode<V>>, s: Tree<TreeNode<V>>)
    requires Root(t) == Root(s)
    ensures Root(Plug(p, t)) == Root(Plug(p, s))
  {
    if !p.Top? {
      SameRoot(p.up, Attach(p, t, p.colour), Attach(p, s, p.colour));
    }
  }

  // A subtree w at the hole of `up` is replaced by a triple s of the same nodes.
  lemma {:induction false} TripleStored<V>(h: Store<V>, h': Store<V>, up: Path<TreeNode<V>>, w: Tree<TreeNode<V>>,
                                           s: Tree<TreeNode<V>>, pa: TreeNode?<V>, pb: TreeNode?<V>, pc: TreeNode?<V>,
                                           pd: TreeNode?<V>)
    requires Stored(h, Plug(up, w)) && InOrder(w) == InOrder(s)
    requires s.Node? && s.left.Node? && s.right.Node?
    requires {s.item, s.left.item, s.right.item} <= h'.Keys
    requires h'[s.item] == Links(s.left.item, s.right.item, ParentItem(up), s.colour)
    requires h'[s.left.item] == Links(Root(s.left.left), Root(s.left.right), s.item, s.left.colour)
    requires h'[s.right.item] == Links(Root(s.right.left), Root(s.right.right), s.item, s.right.colour)
    requires Moved(h, h', s.left.left, pa, s.left.item) && Moved(h, h', s.left.right, pb, s.left.item)
    requires Moved(h, h', s.right.left, pc, s.right.item) && Moved(h, h', s.right.right, pd, s.right.item)
    requires !up.Top? ==> up.item in h' && h'[up.item] == AboveHole(up, s.item)
    requires Same(h, h', PathItems(up) - {ParentItem(up)})
    ensures Stored(h', Plug(up, s))
  {
    StoredParts(h, up, w);
    SameItems(w, s);
    TripleLinked(h, h', s, ParentItem(up), pa, pb, pc, pd);
    HoleChanged(h, h', up, Root(w), s.item);
    StoredParts(h', up, s);
  }

  // The result of linking x, y and z to each other and handing over b and c.
  ghost predicate TripleRelinked<V>(h: Store<V>, h': Store<V>, up: Path<TreeNode<V>>, s: Tree<TreeNode<V>>)
    requires s.Node? && s.left.Node? && s.right.Node?
  {
    {s.item, s.left.item, s.right.item} <= h'.Keys &&
    h'[s.item] == Links(s.left.item, s.right.item, ParentItem(up), s.colour) &&
    h'[s.left.item] == Links(Root(s.left.left), Root(s.left.right), s.item, s.left.colour) &&
    h'[s.right.item] == Links(Root(s.right.left), Root(s.right.right), s.item, s.right.colour) &&
    (s.left.right.Node? ==>
       var b := s.left.right.item; b in h && b in h' && h'[b] == h[b].(parent := s.left.item)) &&
    (s.right.left.Node? ==>
       var c := s.right.left.item; c in h && c in h' && h'[c] == h[c].(parent := s.right.item)) &&
    (!up.Top? ==> up.item in h' && h'[up.item] == AboveHole(up, s.item)) &&
    Same(h, h', Items(s) + PathItems(up) -
                {s.item, s.left.item, s.right.item, Root(s.left.right), Root(s.right.left), ParentItem(up)})
  }

  // Which subtrees of the triple kept all their fields.
  lemma {:induction false} TripleRest<V>(h: Store<V>, h': Store<V>, up: Path<TreeNode<V>>, s: Tree<TreeNode<V>>)
    requires s.Node? && s.left.Node? && s.right.Node? && Apart(up, s)
    requires TripleRelinked(h, h', up, s)
    ensures Same(h, h', Items(s.left.left)) && Same(h, h', Items(s.right.right))
    ensures Same(h, h', Items(s.left.right) - {Root(s.left.right)})
    ensures Same(h, h', Items(s.right.left) - {Root(s.right.left)})
    ensures Same(h, h', PathItems(up) - {ParentItem(up)})
  {
    assert Items(s) == Items(s.left) + {s.item} + Items(s.right);
    assert Items(s.left) == Items(s.left.left) + {s.left.item} + Items(s.left.right);
    assert Items(s.right) == Items(s.right.left) + {s.right.item} + Items(s.right.right);
    assert Root(s.left.right) != null ==> Root(s.left.right) in Items(s.left.right);
    assert Root(s.right.left) != null ==> Root(s.right.left) in Items(s.right.left);
    assert ParentItem(up) != null ==> ParentItem(up) in PathItems(up);
    assert Distinct(s.left) && Distinct(s.right);
    var all := Items(s) + PathItems(up) -
               {s.item, s.left.item, s.right.item, Root(s.left.right), Root(s.right.left), ParentItem(up)};
    SameWithin(h, h', all, Items(s.left.left));
    SameWithin(h, h', all, Items(s.right.right));
    SameWithin(h, h', all, Items(s.left.right) - {Root(s.left.right)});
    SameWithin(h, h', all, Items(s.right.left) - {Root(s.right.left)});
    SameWithin(h, h', all, PathItems(up) - {ParentItem(up)});
  }

  // The four subtrees of s, linked before the change to pa, pb, pc and pd.
  ghost predicate OuterLinked<V>(h: Store<V>, s: Tree<TreeNode<V>>,
                                 pa: TreeNode?<V>, pb: TreeNode?<V>, pc: TreeNode?<V>, pd: TreeNode?<V>)
    requires s.Node? && s.left.Node? && s.right.Node?
  {
    Linked(h, s.left.left, pa) && Linked(h, s.left.right, pb) &&
    Linked(h, s.right.left, pc) && Linked(h, s.right.right, pd)
  }

  lemma {:induction false} TripleReplaced<V>(h: Store<V>, h': Store<V>, up: Path<TreeNode<V>>, w: Tree<TreeNode<V>>,
                                             s: Tree<TreeNode<V>>, pb: TreeNode?<V>, pc: TreeNode?<V>)
    requires Stored(h, Plug(up, w)) && InOrder(w) == InOrder(s)
    requires s.Node? && s.left.Node? && s.right.Node? && TripleRelinked(h, h', up, s)
    requires OuterLinked(h, s, s.left.item, pb, pc, s.right.item)
    ensures Stored(h', Plug(up, s))
  {
    StoredParts(h, up, w);
    SameItems(w, s);
    TripleRest(h, h', up, s);
    TripleStored(h, h', up, w, s, s.left.item, pb, pc, s.right.item);
  }

  // In an insertion the outer subtrees of the triple stay under the nodes they were under.
  lemma {:induction false} InsertTripleStored<V>(h: Store<V>, h': Store<V>, p: Path<TreeNode<V>>, t: Tree<TreeNode<V>>)
    requires !p.Top? && !p.up.Top? && t.Node? && Stored(h, Plug(p, t))
    requires TripleRelinked(h, h', p.up.up, InsertTriple(p, t))
    ensures Stored(h', Plug(p.up.up, InsertTriple(p, t)))
  {
    var g := p.up;
    var s := InsertTriple(p, t);
    var w := Attach(g, Attach(p, t, p.colour), g.colour);
    InsertTripleInOrder(p, t);
    PlugLinked(h, p, t);
    assert Plug(g.up, w) == Plug(p, t);
    var x, y, z := s.left.item, s.item, s.right.item;
    if p.InLeft? == g.InLeft? {
      var pb := if p.InLeft? then x else y;
      var pc := if p.InLeft? then y else z;
      TripleReplaced(h, h', g.up, w, s, pb, pc);
    } else {
      TripleReplaced(h, h', g.up, w, s, y, y);
    }
  }

  // In a deletion likewise.
  lemma {:induction false} EraseTripleStored<V>(h: Store<V>, h': Store<V>, p: Path<TreeNode<V>>, t: Tree<TreeNode<V>>)
    requires !p.Top? && Sibling(p).Node? && Stored(h, Plug(p, t))
    requires IsRed(Sibling(p).right) || IsRed(Sibling(p).left)
    requires TripleRelinked(h, h', p.up, EraseTriple(p, t))
    ensures Stored(h', Plug(p.up, EraseTriple(p, t)))
  {
    var s := EraseTriple(p, t);
    var w := Attach(p, t, p.colour);
    EraseTripleInOrder(p, t);
    PlugLinked(h, p, t);
    assert Plug(p.up, w) == Plug(p, t);
    assert Linked(h, Sibling(p), p.item);
    assert Linked(h, Sibling(p).left, Sibling(p).item) && Linked(h, Sibling(p).right, Sibling(p).item);
    var x, y, z := s.left.item, s.item, s.right.item;
    if p.InLeft? && IsRed(Sibling(p).right) {
      TripleReplaced(h, h', p.up, w, s, y, z);
    } else if p.InRight? && !IsRed(Sibling(p).right) {
      TripleReplaced(h, h', p.up, w, s, x, y);
    } else {
      TripleReplaced(h, h', p.up, w, s, y, y);
    }
  }

  // The nodes of a triple and of the path above it are pairwise different.
  lemma {:induction false} TripleApart<V>(up: Path<TreeNode<V>>, s: Tree<TreeNode<V>>)
    requires s.Node? && s.left.Node? && s.right.Node? && Apart(up, s)
    ensures var x, y, z, b, c, g := s.left.item, s.item, s.right.item, Root(s.left.right), Root(s.right.left),
                                     ParentItem(up);
            x != y && y != z && z != x && b !in {x, y, z} && c !in {x, y, z} && (b == c ==> b == null) &&
            g !in {x, y, z} && (g != null ==> g != b && g != c)
    ensures {s.item, s.left.item, s.right.item} <= Items(s)
    ensures s.left.right.Node? ==> s.left.right.item in Items(s)
    ensures s.right.left.Node? ==> s.right.left.item in Items(s)
    ensures !up.Top? ==> up.item in PathItems(up)
  {
    assert Items(s) == Items(s.left) + {s.item} + Items(s.right);
    assert Items(s.left) == Items(s.left.left) + {s.left.item} + Items(s.left.right);
    assert Items(s.right) == Items(s.right.left) + {s.right.item} + Items(s.right.right);
    assert s.left.right.Node? ==> s.left.right.item in Items(s.left.right);
    assert s.right.left.Node? ==> s.right.left.item in Items(s.right.left);
    assert Distinct(s.left) && Distinct(s.right);
  }

  // What the pointer updates of `WithTriple` leave in each field, when all nodes differ.
  lemma {:induction false} WithTripleFields<V>(h: Store<V>, top: TreeNode<V>, x: TreeNode<V>, y: TreeNode<V>,
                                               z: TreeNode<V>, b: TreeNode?<V>, c: TreeNode?<V>)
    requires {top, x, y, z} <= h.Keys && (b != null ==> b in h) && (c != null ==> c in h)
    requires h[top].parent != null ==> h[top].parent in h
    requires x != y && y != z && z != x && b !in {x, y, z} && c !in {x, y, z} && (b == c ==> b == null)
    requires h[top].parent !in {x, y, z} && (h[top].parent != null ==> h[top].parent !in {b, c})
    ensures var h', g := WithTriple(h, top, x, y, z, b, c), h[top].parent;
            h'[y] == Links(x, z, g, h[y].colour) &&
            h'[x] == Links(h[x].left, b, y, h[x].colour) &&
            h'[z] == Links(c, h[z].right, y, h[z].colour) &&
            (b != null ==> h'[b] == h[b].(parent := x)) && (c != null ==> h'[c] == h[c].(parent := z)) &&
            (g != null ==> h'[g] == if h[g].left == top then h[g].(left := y) else h[g].(right := y)) &&
            Same(h, h', h.Keys - {x, y, z, b, c, g})
  {
  }

  // The same with the colours set before.
  lemma {:induction false} TripleFields<V>(h: Store<V>, hc: Store<V>, top: TreeNode<V>, x: TreeNode<V>, y: TreeNode<V>,
                                           z: TreeNode<V>, b: TreeNode?<V>, c: TreeNode?<V>, cx: Colour, cy: Colour,
                                           cz: Colour)
    requires {top, x, y, z} <= h.Keys && (b != null ==> b in h) && (c != null ==> c in h)
    requires h[top].parent != null ==> h[top].parent in h
    requires x != y && y != z && z != x && b !in {x, y, z} && c !in {x, y, z} && (b == c ==> b == null)
    requires h[top].parent !in {x, y, z} && (h[top].parent != null ==> h[top].parent !in {b, c})
    requires hc == WithColour(WithColour(WithColour(h, y, cy), x, cx), z, cz)
    ensures hc.Keys == h.Keys && hc[top].parent == h[top].parent
    ensures var h', g := WithTriple(hc, top, x, y, z, b, c), h[top].parent;
            h'[y] == Links(x, z, g, cy) && h'[x] == Links(h[x].left, b, y, cx) &&
            h'[z] == Links(c, h[z].right, y, cz) &&
            (b != null ==> h'[b] == h[b].(parent := x)) && (c != null ==> h'[c] == h[c].(parent := z)) &&
            (g != null ==> h'[g] == if h[g].left == top then h[g].(left := y) else h[g].(right := y)) &&
            Same(h, h', h.Keys - {x, y, z, b, c, g})
  {
    WithTripleFields(hc, top, x, y, z, b, c);
  }

  // The pointer updates of `WithTriple` relink the nodes as s says, once the colours are set.
  lemma {:induction false} WithTripleRelinks<V>(h: Store<V>, hc: Store<V>, up: Path<TreeNode<V>>, s: Tree<TreeNode<V>>,
                                                top: TreeNode<V>)
    requires s.Node? && s.left.Node? && s.right.Node? && Apart(up, s)
    requires top in {s.left.item, s.right.item}
    requires Items(s) + PathItems(up) <= h.Keys == hc.Keys
    requires h[top].parent == ParentItem(up) && (!up.Top? ==> h[up.item] == AboveHole(up, top))
    requires !up.Top? && up.InRight? ==> Root(up.left) != top
    requires h[s.left.item].left == Root(s.left.left) && h[s.right.item].right == Root(s.right.right)
    requires hc == WithTripleColours(h, s)
    ensures hc[top].parent != null ==> hc[top].parent in hc
    ensures s.left.right.Node? ==> s.left.right.item in hc
    ensures s.right.left.Node? ==> s.right.left.item in hc
    ensures var h' := WithTriple(hc, top, s.left.item, s.item, s.right.item, Root(s.left.right), Root(s.right.left));
      TripleRelinked(h, h', up, s)
  {
    TripleApart(up, s);
    TripleRelinkedAt(h, hc, up, s, top, Items(s) + PathItems(up));
  }

  lemma {:induction false} TripleRelinkedAt<V>(h: Store<V>, hc: Store<V>, up: Path<TreeNode<V>>, s: Tree<TreeNode<V>>,
                                               top: TreeNode<V>, nodes: set<TreeNode<V>>)
    requires s.Node? && s.left.Node? && s.right.Node?
    requires var x, y, z, b, c, g := s.left.item, s.item, s.right.item, Root(s.left.right), Root(s.right.left),
                                     ParentItem(up);
             top in {x, z} && {x, y, z} <= nodes <= h.Keys == hc.Keys && nodes == Items(s) + PathItems(up) &&
             (b != null ==> b in nodes) && (c != null ==> c in nodes) && (g != null ==> g in nodes) &&
             x != y && y != z && z != x && b !in {x, y, z} && c !in {x, y, z} && (b == c ==> b == null) &&
             g !in {x, y, z} && (g != null ==> g != b && g != c) &&
             h[top].parent == g && (g != null ==> h[g] == AboveHole(up, top)) &&
             h[x].left == Root(s.left.left) && h[z].right == Root(s.right.right) &&
             hc == WithColour(WithColour(WithColour(h, y, s.colour), x, s.left.colour), z, s.right.colour)
    requires up.InRight? ==> Root(up.left) != top
    ensures var h' := WithTriple(hc, top, s.left.item, s.item, s.right.item, Root(s.left.right), Root(s.right.left));
      TripleRelinked(h, h', up, s)
  {
    var x, y, z, b, c, g := s.left.item, s.item, s.right.item, Root(s.left.right), Root(s.right.left), ParentItem(up);
    TripleFields(h, hc, top, x, y, z, b, c, s.left.colour, s.colour, s.right.colour);
  }

  lemma {:induction false} PlugRootFixed<V>(p: Path<TreeNode<V>>, t: Tree<TreeNode<V>>, s: Tree<TreeNode<V>>)
    requires !p.Top?
    ensures Root(Plug(p, t)) == Root(Plug(p, s))
  {
    if !p.up.Top? {
      PlugRootFixed(p.up, Attach(p, t, p.colour), Attach(p, s, p.colour));
    }
  }

  // A triple that replaces w, where `top` headed w and is now an outer node of the triple.
  lemma {:induction false} TripleUpdates<V>(h: Store<V>, up: Path<TreeNode<V>>, w: Tree<TreeNode<V>>,
                                            s: Tree<TreeNode<V>>)
    requires Stored(h, Plug(up, w)) && InOrder(w) == InOrder(s) && Items(Plug(up, w)) <= h.Keys
    requires w.Node? && s.Node? && s.left.Node? && s.right.Node? && w.item in {s.left.item, s.right.item}
    requires s.left.item in h && s.right.item in h
    requires h[s.left.item].left == Root(s.left.left) && h[s.right.item].right == Root(s.right.right)
    ensures {s.item, s.left.item, s.right.item} <= h.Keys
    ensures var hc := WithTripleColours(h, s);
            (hc[w.item].parent != null ==> hc[w.item].parent in hc) &&
            (s.left.right.Node? ==> s.left.right.item in hc) && (s.right.left.Node? ==> s.right.left.item in hc) &&
            var h' := WithTriple(hc, w.item, s.left.item, s.item, s.right.item, Root(s.left.right), Root(s.right.left));
            TripleRelinked(h, h', up, s)
    ensures h[w.item].parent == ParentItem(up) && Items(Plug(up, s)) == Items(Plug(up, w))
    ensures Root(Plug(up, s)) == if up.Top? then s.item else Root(Plug(up, w))
    ensures s.item != w.item && h[w.item].parent !in {s.item, w.item}
    ensures h[w.item].parent == null <==> w.item == Root(Plug(up, w))
  {
    StoredParts(h, up, w);
    PlugItems(up, s);
    SameItems(w, s);
    TripleApart(up, s);
    if !up.Top? {
      PlugRootFixed(up, w, s);
      PlugRoot(up, w);
      assert PathItems(up) == {up.item} + Items(Sibling(up)) + PathItems(up.up);
      assert Sibling(up).Node? ==> Sibling(up).item in Items(Sibling(up));
    }
    var hc := WithTripleColours(h, s);
    WithTripleRelinks(h, hc, up, s, w.item);
  }

  // The subtree headed by the grandparent, before the rotation.
  function Grand<T>(p: Path<T>, t: Tree<T>): Tree<T>
    requires !p.Top? && !p.up.Top?
  {
    Attach(p.up, Attach(p, t, p.colour), p.up.colour)
  }

  lemma {:induction false} InsertTripleOuter<V>(h: Store<V>, p: Path<TreeNode<V>>, t: Tree<TreeNode<V>>)
    requires !p.Top? && !p.up.Top? && t.Node? && Stored(h, Plug(p, t))
    ensures var s, w := InsertTriple(p, t), Grand(p, t);
            Plug(p.up.up, w) == Plug(p, t) && InOrder(w) == InOrder(s) && w.item in {s.left.item, s.right.item} &&
            s.left.item in h && s.right.item in h &&
            h[s.left.item].left == Root(s.left.left) && h[s.right.item].right == Root(s.right.right)
  {
    InsertTripleInOrder(p, t);
    PlugLinked(h, p, t);
  }

  // All updates that build the triple s in the place of a subtree headed by `top`.
  ghost function WithRotation<V>(h: Store<V>, s: Tree<TreeNode<V>>, top: TreeNode<V>): Store<V>
    requires s.Node? && s.left.Node? && s.right.Node? && {top, s.item, s.left.item, s.right.item} <= h.Keys
    requires s.left.right.Node? ==> s.left.right.item in h
    requires s.right.left.Node? ==> s.right.left.item in h
    requires h[top].parent != null ==> h[top].parent in h
  {
    var x, y, z := s.left, s, s.right;
    var hc := WithColour(WithColour(WithColour(h, y.item, y.colour), x.item, x.colour), z.item, z.colour);
    WithTriple(hc, top, x.item, y.item, z.item, Root(x.right), Root(z.left))
  }

  lemma {:induction false} InsertRotation<V>(h: Store<V>, p: Path<TreeNode<V>>, t: Tree<TreeNode<V>>)
    requires !p.Top? && !p.up.Top? && t.Node? && Stored(h, Plug(p, t)) && Items(Plug(p, t)) == h.Keys
    ensures var s, top, done := InsertTriple(p, t), p.up.item, Plug(p.up.up, InsertTriple(p, t));
            {top, s.item, s.left.item, s.right.item} <= h.Keys &&
            (s.left.right.Node? ==> s.left.right.item in h) && (s.right.left.Node? ==> s.right.left.item in h) &&
            (h[top].parent != null ==> h[top].parent in h && h[top].parent !in {top, s.item}) &&
            s.item != top && (h[top].parent == null <==> top == Root(Plug(p, t))) &&
            Stored(WithRotation(h, s, top), done) && Items(done) == Items(Plug(p, t)) &&
            Root(done) == if top == Root(Plug(p, t)) then s.item else Root(Plug(p, t))
  {
    var s, top := InsertTriple(p, t), p.up.item;
    InsertTripleOuter(h, p, t);
    TripleUpdates(h, p.up.up, Grand(p, t), s);
    InsertTripleStored(h, WithRotation(h, s, top), p, t);
  }

  // A new leaf node n in the hole of p.
  function NewLeaf<T>(n: T): Tree<T> { Node(Leaf, n, Red, Leaf) }

  lemma {:induction false} AttachStored<V>(h: Store<V>, h': Store<V>, p: Path<TreeNode<V>>, n: TreeNode<V>)
    requires !p.Top? && Stored(h, Plug(p, Leaf)) && n !in Items(Plug(p, Leaf))
    requires n in h' && h'[n] == Links(null, null, p.item, Red)
    requires p.item in h' && h'[p.item] == AboveHole(p, n)
    requires Same(h, h', Items(Plug(p, Leaf)) - {p.item})
    ensures Stored(h', Plug(p, NewLeaf(n))) && Items(Plug(p, NewLeaf(n))) == Items(Plug(p, Leaf)) + {n}
    ensures Root(Plug(p, NewLeaf(n))) == Root(Plug(p, Leaf))
  {
    StoredParts<V>(h, p, Leaf);
    assert Items(NewLeaf(n)) == {n};
    assert p.item in PathItems(p) && Same(h, h', PathItems(p) - {p.item});
    HoleChanged(h, h', p, null, n);
    assert Linked(h', NewLeaf(n), p.item) && Distinct(NewLeaf(n));
    StoredParts(h', p, NewLeaf(n));
    PlugRootFixed(p, Leaf, NewLeaf(n));
  }

  // A new leaf is the first item exactly when it hangs left of the old first item, and
  // the last item exactly when it hangs right of the old last one.
  lemma {:induction false} EndsAfterAttach<T>(p: Path<T>, n: T)
    requires !p.Top? && Distinct(Plug(p, Leaf))
    ensures var s, s' := InOrder(Plug(p, Leaf)), InOrder(Plug(p, NewLeaf(n)));
            |s| > 0 && |s'| == |s| + 1 &&
            s'[0] == (if p.InLeft? && p.item == s[0] then n else s[0]) &&
            s'[|s|] == (if p.InRight? && p.item == s[|s| - 1] then n else s[|s| - 1])
  {
    PlugInOrder<T>(p, Leaf);
    PlugInOrder(p, NewLeaf(n));
    DistinctInOrder(Plug(p, Leaf));
    var b, a, s := Before(p), After(p), InOrder(Plug(p, Leaf));
    assert s == b + a && InOrder(NewLeaf(n)) == [n];
    if p.InLeft? {
      assert a[0] == p.item == s[|b|];
    } else {
      assert b[|b| - 1] == p.item == s[|b| - 1];
    }
  }
}
