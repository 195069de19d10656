/** Unlinking a node: the predecessor takes its place, and the hole left behind is closed. */
module RbDetach {
  import opened RbTheory
  import opened RbErase
  import opened RbPosition
  import opened RbNodes
  import opened RbRelink

  // ----- closing a hole

  // The link into the hole of q becomes n.
  ghost function WithHole<V>(h: Store<V>, q: Path<TreeNode<V>>, n: TreeNode?<V>): Store<V>
    requires !q.Top? && q.item in h
  {
    if q.InLeft? then WithLeft(h, q.item, n) else WithRight(h, q.item, n)
  }

  // Right outside the hole of q and inside t, but the two need not be joined.
  ghost predicate Open<V>(h: Store<V>, q: Path<TreeNode<V>>, x: TreeNode?<V>, t: Tree<TreeNode<V>>, from: TreeNode?<V>)
  {
    PathLinked(h, q, x) && Linked(h, t, from) && Apart(q, t)
  }

  lemma {:induction false} HoleEmptied<V>(h: Store<V>, q: Path<TreeNode<V>>, x: TreeNode?<V>)
    requires !q.Top? && Open(h, q, x, Leaf, null)
    ensures q.item in h && Stored(WithHole(h, q, null), Plug(q, Leaf)) && Items(Plug(q, Leaf)) == PathItems(q)
  {
    var h' := WithHole(h, q, null);
    HoleChanged(h, h', q, x, null);
    StoredParts<V>(h', q, Leaf);
  }

  lemma {:induction false} HoleFilled<V>(h: Store<V>, q: Path<TreeNode<V>>, x: TreeNode?<V>, t: Tree<TreeNode<V>>,
                                         from: TreeNode?<V>)
    requires !q.Top? && t.Node? && Open(h, q, x, t, from)
    ensures q.item in h && t.item in h
    ensures var done := Plug(q, Blackened(t));
            Stored(WithColour(WithParent(WithHole(h, q, t.item), t.item, q.item), t.item, Black), done) &&
            Items(done) == Items(t) + PathItems(q)
  {
    assert t.item in Items(t) && q.item in PathItems(q);
    var h' := WithColour(WithParent(WithHole(h, q, t.item), t.item, q.item), t.item, Black);
    HoleChanged(h, h', q, x, t.item);
    Reparented(h, h', t, from, q.item, Black);
    assert Items(Blackened(t)) == Items(t);
    StoredParts(h', q, Blackened(t));
  }

  lemma {:induction false} RootLeft<V>(h: Store<V>, t: Tree<TreeNode<V>>, from: TreeNode?<V>)
    requires t.Node? && Linked(h, t, from) && Distinct(t)
    ensures t.item in h && t.item in Items(t) && Items(Blackened(t)) == Items(t)
    ensures Stored(WithColour(WithParent(h, t.item, null), t.item, Black), Blackened(t))
  {
    Reparented(h, WithColour(WithParent(h, t.item, null), t.item, Black), t, from, null, Black);
  }

  // ----- the predecessor takes the place of the erased node d

  ghost function WithSwap<V>(h: Store<V>, d: TreeNode<V>, pred: TreeNode<V>): Store<V>
    requires d in h && pred in h && h[d].left != null && h[d].left in h && h[d].right != null && h[d].right in h
    requires h[d].parent != null ==> h[d].parent in h && h[d].parent != d
  {
    WithLinksOf(WithChild(h, h[d].parent, d, pred), d, pred)
  }

  ghost function WithLinksOf<V>(h: Store<V>, d: TreeNode<V>, pred: TreeNode<V>): Store<V>
    requires d in h && pred in h && h[d].left != null && h[d].left in h && h[d].right != null && h[d].right in h
  {
    var l, r := h[d].left, h[d].right;
    var h2 := if pred != l then WithLeft(WithParent(h, l, pred), pred, l) else h;
    var h3 := WithParent(h2, r, pred);
    WithRight(WithParent(WithColour(h3, pred, h3[d].colour), pred, h3[d].parent), pred, r)
  }

  // Paths and trees before and after the swap, for the node d at p.
  function Pred<T>(p: Path<T>, d: Tree<T>): Tree<T>
    requires d.Node? && d.left.Node?
  {
    Rightmost(InLeft(p, d.item, d.colour, d.right), d.left).1
  }

  function SwapBase<T>(p: Path<T>, d: Tree<T>): Path<T>
    requires d.Node? && d.left.Node?
  {
    InLeft(p, Pred(p, d).item, d.colour, d.right)
  }

  function SwapPath<T>(p: Path<T>, d: Tree<T>): Path<T>
    requires d.Node? && d.left.Node?
  {
    Rightmost(SwapBase(p, d), d.left).0
  }

  // The rightmost node is in the tree; it is the top only if nothing hangs right of the top.
  lemma {:induction false} RightmostIn<T>(p: Path<T>, t: Tree<T>)
    requires t.Node? && Distinct(t)
    ensures Rightmost(p, t).1.item in Items(t)
    ensures Items(Rightmost(p, t).1.left) <= Items(t) - {Rightmost(p, t).1.item}
    ensures t.right.Node? ==>
      Rightmost(p, t).1.item in Items(t.right) && Items(Rightmost(p, t).1.left) <= Items(t.right)
    decreases t
  {
    if t.right.Node? {
      RightmostIn(InRight(t.left, t.item, t.colour, p), t.right);
    }
  }

  // All of t but its top and its rightmost node kept their fields; the top has the new parent.
  ghost predicate SpineKept<V>(h: Store<V>, h': Store<V>, base: Path<TreeNode<V>>, t: Tree<TreeNode<V>>,
                               pred: TreeNode<V>)
  {
    t.Node? && t.right.Node? && t.item in h' &&
    h'[t.item] == Links(Root(t.left), Root(t.right), ParentItem(base), t.colour) &&
    Same(h, h', Items(t) - {t.item, pred})
  }

  lemma {:induction false} SpineLinked<V>(h: Store<V>, h': Store<V>, base: Path<TreeNode<V>>, t: Tree<TreeNode<V>>,
                                          parent: TreeNode?<V>, pred: TreeNode<V>)
    requires Distinct(t) && Linked(h, t, parent) && SpineKept(h, h', base, t, pred)
    requires pred == Rightmost(base, t).1.item && PathLinked(h', base, t.item)
    ensures PathLinked(h', Rightmost(base, t).0, pred)
    decreases t
  {
    var next := InRight(t.left, t.item, t.colour, base);
    RightmostIn(base, t);
    var kept := Items(t) - {t.item, pred};
    SameWithin(h, h', kept, Items(t.left));
    LinkedSame(h, h', t.left, t.item);
    assert PathLinked(h', next, t.right.item);
    if t.right.right.Node? {
      RightmostIn(next, t.right);
      assert t.right.item != pred;
      SameWithin(h, h', kept, Items(t.right) - {t.right.item, pred});
      SpineLinked(h, h', next, t.right, t.item, pred);
    }
  }

  // The predecessor is the erased node's own left child.
  predicate NextToIt<T>(d: Tree<T>)
    requires d.Node? && d.left.Node?
  {
    d.left.right.Leaf?
  }

  ghost predicate Swapped<V>(h: Store<V>, h': Store<V>, p: Path<TreeNode<V>>, d: Tree<TreeNode<V>>)
    requires d.Node? && d.left.Node? && d.right.Node?
  {
    var pred, l, r := Pred(p, d).item, d.left, d.right.item;
    {pred, r, l.item} <= h'.Keys && {r, l.item} <= h.Keys &&
    h'[pred] == AboveHole(SwapBase(p, d), if NextToIt(d) then Root(l.left) else l.item) &&
    h'[r] == h[r].(parent := pred) &&
    (!NextToIt(d) ==> h'[l.item] == h[l.item].(parent := pred)) &&
    (!p.Top? ==> p.item in h' && h'[p.item] == AboveHole(p, pred)) &&
    Same(h, h', Items(Plug(p, d)) - {d.item, pred, r, l.item, ParentItem(p)})
  }

  // Where the nodes of the swap stand.
  lemma {:induction false} SwapApart<V>(p: Path<TreeNode<V>>, d: Tree<TreeNode<V>>)
    requires d.Node? && d.left.Node? && d.right.Node? && Apart(p, d)
    ensures var pred, l, r, g := Pred(p, d).item, d.left.item, d.right.item, ParentItem(p);
            pred in Items(d.left) && l in Items(d.left) && r in Items(d.right) && (pred == l <==> NextToIt(d)) &&
            d.item !in {pred, l, r} && r !in {pred, l} && g !in {pred, l, r, d.item} &&
            (g != null ==> g in PathItems(p)) && (p.InRight? ==> Root(p.left) != d.item)
    ensures NextToIt(d) ==> Pred(p, d) == d.left
  {
    RightmostIn(InLeft(p, d.item, d.colour, d.right), d.left);
    if !p.Top? {
      assert PathItems(p) == {p.item} + Items(Sibling(p)) + PathItems(p.up);
      assert Sibling(p).Node? ==> Sibling(p).item in Items(Sibling(p));
    }
  }

  lemma {:induction false} SwapUpdates<V>(h: Store<V>, p: Path<TreeNode<V>>, d: Tree<TreeNode<V>>)
    requires d.Node? && d.left.Node? && d.right.Node? && Stored(h, Plug(p, d)) && Items(Plug(p, d)) == h.Keys
    ensures var pred := Pred(p, d).item;
            {d.item, pred, d.left.item, d.right.item} <= h.Keys &&
            h[d.item] == Links(d.left.item, d.right.item, ParentItem(p), d.colour) &&
            (h[d.item].parent != null ==> h[d.item].parent in h && h[d.item].parent != d.item) &&
            Swapped(h, WithSwap(h, d.item, pred), p, d)
  {
    StoredParts(h, p, d);
    SwapApart(p, d);
    assert Linked(h, d.left, d.item) && Linked(h, d.right, d.item);
  }

  lemma {:induction false} SwapRest<V>(h: Store<V>, h': Store<V>, p: Path<TreeNode<V>>, d: Tree<TreeNode<V>>)
    requires d.Node? && d.left.Node? && d.right.Node? && Apart(p, d) && Swapped(h, h', p, d)
    ensures Same(h, h', Items(d.right) - {d.right.item}) && Same(h, h', PathItems(p) - {ParentItem(p)})
    ensures Same(h, h', Items(d.left) - {d.left.item, Pred(p, d).item})
    ensures Same(h, h', Items(Pred(p, d).left))
  {
    PlugItems(p, d);
    SwapApart(p, d);
    RightmostIn(InLeft(p, d.item, d.colour, d.right), d.left);
    assert Items(d) == Items(d.left) + {d.item} + Items(d.right);
    var all := Items(Plug(p, d)) - {d.item, Pred(p, d).item, d.right.item, d.left.item, ParentItem(p)};
    SameWithin(h, h', all, Items(d.right) - {d.right.item});
    SameWithin(h, h', all, PathItems(p) - {ParentItem(p)});
    SameWithin(h, h', all, Items(d.left) - {d.left.item, Pred(p, d).item});
    assert d.left.right.Node? ==> d.left.item !in Items(d.left.right);
    SameWithin(h, h', all, Items(Pred(p, d).left));
  }

  // Where the link into the hole leads right after the swap.
  ghost function SwapHole<V>(p: Path<TreeNode<V>>, d: Tree<TreeNode<V>>): TreeNode?<V>
    requires d.Node? && d.left.Node?
  {
    if NextToIt(d) then Root(d.left.left) else Pred(p, d).item
  }

  lemma {:induction false} RightmostLinked<V>(h: Store<V>, base: Path<TreeNode<V>>, t: Tree<TreeNode<V>>,
                                              parent: TreeNode?<V>)
    requires t.Node? && Linked(h, t, parent)
    ensures Linked(h, Rightmost(base, t).1.left, Rightmost(base, t).1.item)
    decreases t
  {
    if t.right.Node? {
      RightmostLinked(h, InRight(t.left, t.item, t.colour, base), t.right, t.item);
    }
  }

  lemma {:induction false} SwapLinked<V>(h: Store<V>, h': Store<V>, p: Path<TreeNode<V>>, d: Tree<TreeNode<V>>)
    requires d.Node? && d.left.Node? && d.right.Node? && Stored(h, Plug(p, d)) && Swapped(h, h', p, d)
    ensures PathLinked(h', SwapPath(p, d), SwapHole(p, d)) && Linked(h', Pred(p, d).left, Pred(p, d).item)
  {
    var pred, base := Pred(p, d), SwapBase(p, d);
    StoredParts(h, p, d);
    SwapRest(h, h', p, d);
    RightmostSameTree(InLeft(p, d.item, d.colour, d.right), base, d.left);
    RightmostLinked(h, base, d.left, d.item);
    LinkedSame(h, h', pred.left, pred.item);
    MovedLinked(h, h', d.right, d.item, pred.item);
    HoleChanged(h, h', p, d.item, pred.item);
    if !NextToIt(d) {
      assert PathLinked(h', base, d.left.item);
      SpineLinked(h, h', base, d.left, d.item, pred.item);
    }
  }

  // The nodes that are left.
  lemma {:induction false} SwapItems<T>(p: Path<T>, d: Tree<T>)
    requires d.Node? && d.left.Node? && d.right.Node? && Distinct(Plug(p, d))
    ensures Apart(SwapPath(p, d), Pred(p, d).left)
    ensures Items(Plug(SwapPath(p, d), Pred(p, d).left)) == Items(Plug(p, d)) - {d.item}
    ensures !SwapPath(p, d).Top?
  {
    var q, pred := SwapPath(p, d), Pred(p, d);
    RightmostSameTree(InLeft(p, d.item, d.colour, d.right), SwapBase(p, d), d.left);
    InnerErasedInOrder(p, d, pred, q);
    PlugInOrder(q, pred.left);
    WithoutItem(p, d, Plug(q, pred.left));
    PlugItems(q, pred.left);
    RightmostNotTop(SwapBase(p, d), d.left);
  }

  lemma {:induction false} RightmostNotTop<T>(p: Path<T>, t: Tree<T>)
    requires t.Node? && !p.Top?
    ensures !Rightmost(p, t).0.Top?
    decreases t
  {
    if t.right.Node? {
      RightmostNotTop(InRight(t.left, t.item, t.colour, p), t.right);
    }
  }

  lemma {:induction false} NoRepeatsWithout<T>(b: seq<T>, x: T, a: seq<T>)
    requires NoRepeats(b + [x] + a)
    ensures NoRepeats(b + a) && x !in b + a
  {
    NoRepeatsParts(b, x, a);
  }

  lemma {:induction false} InWithout<T>(b: seq<T>, x: T, a: seq<T>, y: T)
    requires x !in b + a
    ensures y in b + a <==> y in b + [x] + a && y != x
  {
  }

  // Trees without the item d.item are made of the other nodes.
  lemma {:induction false} ItemsWithout<T>(t: Tree<T>, s: Tree<T>, b: seq<T>, x: T, a: seq<T>)
    requires InOrder(t) == b + [x] + a && InOrder(s) == b + a && Distinct(t)
    ensures Distinct(s) && Items(s) == Items(t) - {x}
  {
    DistinctInOrder(t);
    NoRepeatsWithout(b, x, a);
    DistinctInOrder(s);
    forall y | y in Items(s) ensures y in Items(t) - {x} {
      ItemInOrder(s, y);
      ItemInOrder(t, y);
      InWithout(b, x, a, y);
    }
    forall y | y in Items(t) - {x} ensures y in Items(s) {
      ItemInOrder(s, y);
      ItemInOrder(t, y);
      InWithout(b, x, a, y);
    }
  }

  lemma {:induction false} WithoutItem<T>(p: Path<T>, d: Tree<T>, s: Tree<T>)
    requires d.Node? && Distinct(Plug(p, d))
    requires InOrder(s) == Before(p) + InOrder(d.left) + InOrder(d.right) + After(p)
    ensures Distinct(s) && Items(s) == Items(Plug(p, d)) - {d.item}
  {
    PlugInOrder(p, d);
    Around(Before(p), InOrder(d.left), d.item, InOrder(d.right), After(p));
    ItemsWithout(Plug(p, d), s, Before(p) + InOrder(d.left), d.item, InOrder(d.right) + After(p));
  }

  lemma {:induction false} Around<T>(b: seq<T>, l: seq<T>, x: T, r: seq<T>, a: seq<T>)
    ensures b + (l + [x] + r) + a == (b + l) + [x] + (r + a)
    ensures b + l + r + a == (b + l) + (r + a)
  {
  }

  lemma {:induction false} SwapRoot<V>(p: Path<TreeNode<V>>, d: Tree<TreeNode<V>>, s: Tree<TreeNode<V>>)
    requires d.Node? && d.left.Node? && Distinct(Plug(p, d))
    ensures Root(Plug(SwapPath(p, d), s)) == if d.item == Root(Plug(p, d)) then Pred(p, d).item else Root(Plug(p, d))
  {
    var q, base := SwapPath(p, d), SwapBase(p, d);
    RightmostMeaning(base, d.left);
    RightmostNotTop(base, d.left);
    PlugRootFixed(q, s, Rightmost(base, d.left).1);
    PlugItems(p, d);
    assert Plug(base, d.left) == Plug(p, Node(d.left, Pred(p, d).item, d.colour, d.right));
    if !p.Top? {
      PlugRootFixed(p, d, Node(d.left, Pred(p, d).item, d.colour, d.right));
      PlugRoot(p, d);
    }
  }

  // The predecessor is the item just before.
  lemma {:induction false} PredIsPrevious<T>(p: Path<T>, d: Tree<T>)
    requires d.Node? && d.left.Node?
    ensures var i := Index(p, d); 0 < i < |InOrder(Plug(p, d))| && Pred(p, d).item == InOrder(Plug(p, d))[i - 1]
  {
    var above := InLeft(p, d.item, d.colour, d.right);
    NodeUnique(p, d);
    RightmostMeaning(above, d.left);
    NodeUnique(Rightmost(above, d.left).0, Rightmost(above, d.left).1);
  }

  // After the swap: the hole, what fills it, and where it is.
  lemma {:induction false} Swapping<V>(h: Store<V>, p: Path<TreeNode<V>>, d: Tree<TreeNode<V>>)
    requires d.Node? && d.left.Node? && d.right.Node? && Stored(h, Plug(p, d)) && Items(Plug(p, d)) == h.Keys
    ensures var pred := Pred(p, d).item;
            {d.item, pred, d.left.item, d.right.item} <= h.Keys &&
            h[d.item] == Links(d.left.item, d.right.item, ParentItem(p), d.colour) &&
            (h[d.item].parent != null ==> h[d.item].parent in h && h[d.item].parent !in {d.item, pred}) &&
            (h[d.item].parent == null <==> d.item == Root(Plug(p, d))) &&
            d.item !in {pred, d.left.item, d.right.item} && h[pred].left == Root(Pred(p, d).left) &&
            h[pred].colour == Pred(p, d).colour &&
            Open(WithSwap(h, d.item, pred), SwapPath(p, d), SwapHole(p, d), Pred(p, d).left, pred)
  {
    StoredParts(h, p, d);
    SwapApart(p, d);
    SwapUpdates(h, p, d);
    SwapLinked(h, WithSwap(h, d.item, Pred(p, d).item), p, d);
    SwapItems(p, d);
    PredFields(h, InLeft(p, d.item, d.colour, d.right), d.left, d.item);
    if !p.Top? {
      PlugRoot(p, d);
    }
  }

  lemma {:induction false} PredFields<V>(h: Store<V>, base: Path<TreeNode<V>>, t: Tree<TreeNode<V>>,
                                         parent: TreeNode?<V>)
    requires t.Node? && Linked(h, t, parent)
    ensures var s := Rightmost(base, t).1; s.item in h && h[s.item].left == Root(s.left) && h[s.item].colour == s.colour
    ensures t.right.Node? ==> h[Rightmost(base, t).1.item].parent == ParentItem(Rightmost(base, t).0)
    decreases t
  {
    if t.right.Node? {
      PredFields(h, InRight(t.left, t.item, t.colour, base), t.right, t.item);
    }
  }

  // Leaving out nodes that are not linked changes nothing.
  lemma {:induction false} OpenWithin<V>(h: Store<V>, h': Store<V>, q: Path<TreeNode<V>>, x: TreeNode?<V>,
                                         t: Tree<TreeNode<V>>, from: TreeNode?<V>)
    requires Open(h, q, x, t, from) && Same(h, h', Items(t) + PathItems(q))
    ensures Open(h', q, x, t, from)
  {
    SameWithin(h, h', Items(t) + PathItems(q), Items(t));
    SameWithin(h, h', Items(t) + PathItems(q), PathItems(q));
    PathSame(h, h', q, x);
    LinkedSame(h, h', t, from);
  }

  // Whatever stands above t, the rightmost node hangs right of the same node, unless it is the top.
  lemma {:induction false} RightmostParent<T>(a: Path<T>, b: Path<T>, t: Tree<T>)
    requires t.Node? && t.right.Node?
    ensures var q, q' := Rightmost(a, t).0, Rightmost(b, t).0; q.InRight? && q'.InRight? && q.item == q'.item
    decreases t
  {
    if t.right.right.Node? {
      RightmostParent(InRight(t.left, t.item, t.colour, a), InRight(t.left, t.item, t.colour, b), t.right);
    }
  }
}
