/** The container: nodes on the heap, and the operations that search and relink them. */
module RbContainer {
  import opened Bytes
  import opened Orders
  import opened RbTheory
  import opened RbErase
  import opened RbPosition
  import opened RbNodes
  import opened RbRelink
  import opened RbWalk
  import opened RbErasing
  import opened RbDetach
  import opened RbCopying
  import opened RbMemory
  import opened RbShape

  class RedBlackTree<K(!new), V> {
    const cmp: (K, K) -> bool
    const keyOf: V -> K

    var mRoot: TreeNode?<V>
    var mFirst: TreeNode?<V>
    var mLast: TreeNode?<V>
    var mSize: int

    // The shape, colours and nodes of the whole tree.
    ghost var tree: Tree<TreeNode<V>>

    // ----- invariants

    ghost predicate Shaped()
      reads `tree, `mRoot, Items(tree)
    {
      Stored(Snapshot(Items(tree)), tree) && mRoot == Root(tree)
    }

    // Keys strictly increase.
    ghost predicate Sorted(s: seq<TreeNode<V>>) {
      forall i, j :: 0 <= i < j < |s| ==> cmp(keyOf(s[i].value), keyOf(s[j].value))
    }

    // The same by another comparison.
    ghost predicate SortedBy(c: (K, K) -> bool, s: seq<TreeNode<V>>) {
      forall i, j :: 0 <= i < j < |s| ==> c(keyOf(s[i].value), keyOf(s[j].value))
    }

    ghost predicate Ends()
      reads `tree, `mFirst, `mLast
    {
      EndsOf(InOrder(tree))
    }

    ghost predicate EndsOf(s: seq<TreeNode<V>>)
      reads `mFirst, `mLast
    {
      mFirst == (if |s| == 0 then null else s[0]) &&
      mLast == (if |s| == 0 then null else s[|s| - 1])
    }

    ghost predicate Valid()
      reads this, Items(tree)
    {
      Shaped() && RedBlack(tree) && StrictWeakOrder(cmp) && Sorted(InOrder(tree)) &&
      Ends() && mSize == |InOrder(tree)|
    }

    constructor (c: (K, K) -> bool, key: V -> K)
      requires StrictWeakOrder(c)
      ensures cmp == c && keyOf == key && Valid() && tree == Leaf
    {
      cmp, keyOf := c, key;
      mRoot, mFirst, mLast, mSize := null, null, null, 0;
      tree := Leaf;
    }

    // A copy, made of nodes of its own.  The comparison is not taken over: the copy has
    // whatever a default comparison is, and is valid exactly when the original's keys
    // increase by that comparison too.
    constructor Copy(that: RedBlackTree<K, V>, defaultCmp: (K, K) -> bool)
      requires that.Valid()
      ensures cmp == defaultCmp && keyOf == that.keyOf && fresh(Items(tree))
      ensures exists f :: Copied(f, that.tree, tree)
      ensures Shaped() && RedBlack(tree) && Ends() && mSize == |InOrder(tree)| == that.mSize
      ensures Valid() <==> StrictWeakOrder(defaultCmp) && that.SortedBy(defaultCmp, InOrder(that.tree))
    {
      cmp, keyOf := defaultCmp, that.keyOf;
      mSize := that.mSize;
      mRoot, mFirst, mLast := null, null, null;
      tree := Leaf;
      new;
      if that.mRoot == null {
        assert Copied(map[], that.tree, tree);
      } else {
        TakeCopy(that);
      }
    }

    method TakeCopy(that: RedBlackTree<K, V>)
      requires that != this && that.Valid() && that.mRoot != null && that.keyOf == keyOf
      modifies `mRoot, `mFirst, `mLast, `tree
      ensures fresh(Items(tree)) && exists f :: Copied(f, that.tree, tree)
      ensures Shaped() && RedBlack(tree) && Ends() && |InOrder(tree)| == |InOrder(that.tree)|
      ensures Sorted(InOrder(tree)) <==> that.SortedBy(cmp, InOrder(that.tree))
    {
      var root, first, last;
      ghost var c;
      root, first, last, c := CopyTree(that);
      TakeNodes(root, first, last, c);
    }

    // The container now holds these nodes.
    method TakeNodes(root: TreeNode<V>, first: TreeNode<V>, last: TreeNode<V>, ghost c: Tree<TreeNode<V>>)
      requires Stored(Snapshot(Items(c)), c) && root == Root(c)
      modifies `mRoot, `mFirst, `mLast, `tree
      ensures Shaped() && tree == c && mFirst == first && mLast == last
    {
      mRoot, mFirst, mLast := root, first, last;
      Reshape(c);
    }

    method CopyTree(that: RedBlackTree<K, V>)
      returns (root: TreeNode<V>, first: TreeNode<V>, last: TreeNode<V>, ghost c: Tree<TreeNode<V>>)
      requires that.Valid() && that.mRoot != null && that.keyOf == keyOf
      ensures fresh(Items(c)) && exists f :: Copied(f, that.tree, c)
      ensures Stored(Snapshot(Items(c)), c) && root == Root(c) && RedBlack(c)
      ensures |InOrder(c)| == |InOrder(that.tree)| > 0 && first == InOrder(c)[0] && last == InOrder(c)[|InOrder(c)| - 1]
      ensures Sorted(InOrder(c)) <==> that.SortedBy(cmp, InOrder(that.tree))
    {
      EndsInside(that.tree);
      ghost var f;
      root, first, last, f, c := CopyNodes(that.mRoot, that.mFirst, that.mLast, that.tree);
      CopiedRedBlack(f, that.tree, c);
      SortedCopied(that, f, c);
    }

    lemma {:induction false} EndsInside(t: Tree<TreeNode<V>>)
      requires t.Node?
      ensures var s := InOrder(t); |s| > 0 && {s[0], s[|s| - 1]} <= Items(t)
    {
      var s := InOrder(t);
      ItemInOrder(t, s[0]);
      ItemInOrder(t, s[|s| - 1]);
    }

    lemma {:induction false} SortedCopied(that: RedBlackTree<K, V>, f: Copies<V>, c: Tree<TreeNode<V>>)
      requires Copied(f, that.tree, c) && that.keyOf == keyOf
      ensures Sorted(InOrder(c)) <==> that.SortedBy(cmp, InOrder(that.tree))
      ensures var s, s' := InOrder(that.tree), InOrder(c);
              |s'| == |s| && (|s| > 0 ==> CopyOf(f, s[0], s'[0]) && CopyOf(f, s[|s| - 1], s'[|s| - 1]))
    {
      CopiedInOrder(f, that.tree, c);
      var s, s' := InOrder(that.tree), InOrder(c);
      forall i, j | 0 <= i < j < |s|
        ensures cmp(keyOf(s'[i].value), keyOf(s'[j].value)) <==> cmp(keyOf(s[i].value), keyOf(s[j].value))
      {
        assert CopyOf(f, s[i], s'[i]) && CopyOf(f, s[j], s'[j]);
      }
    }

    // ----- rebalancing

    // The link that led to d, from its parent or from the container, now leads to y.
    method LinkFromParent(d: TreeNode<V>, y: TreeNode<V>, ghost nodes: set<TreeNode<V>>)
      requires d in nodes && (d.parent != null ==> d.parent in nodes)
      requires d.parent == null <==> d == mRoot
      modifies `mRoot, nodes
      ensures mRoot == if d == old(mRoot) then y else old(mRoot)
      ensures var h := old(Snapshot(nodes)); Snapshot(nodes) == WithChild(h, h[d].parent, d, y)
    {
      if d == mRoot {
        mRoot := y;
      } else if d == d.parent.left {
        d.parent.SetLeft(y, nodes);
      } else {
        d.parent.SetRight(y, nodes);
      }
    }

    // Puts y below the parent of `top` in the place of `top`.
    method ReplaceChild(top: TreeNode<V>, y: TreeNode<V>, ghost nodes: set<TreeNode<V>>)
      requires {top, y} <= nodes && (top.parent != null ==> top.parent in nodes && top.parent !in {top, y})
      requires top != y && (top.parent == null <==> top == mRoot)
      modifies `mRoot, nodes
      ensures mRoot == if top == old(mRoot) then y else old(mRoot)
      ensures var h := old(Snapshot(nodes));
              Snapshot(nodes) == WithParent(WithChild(h, h[top].parent, top, y), y, h[top].parent)
    {
      LinkFromParent(top, y, nodes);
      y.SetParent(top.parent, nodes);
    }

    // Makes y the parent of x and z in the place of `top`, and hands b and c over to x and z.
    method LinkTriple(top: TreeNode<V>, x: TreeNode<V>, y: TreeNode<V>, z: TreeNode<V>, b: TreeNode?<V>,
                      c: TreeNode?<V>, ghost nodes: set<TreeNode<V>>)
      requires {top, x, y, z} <= nodes && (b != null ==> b in nodes) && (c != null ==> c in nodes)
      requires top.parent != null ==> top.parent in nodes && top.parent !in {top, y}
      requires top != y && (top.parent == null <==> top == mRoot)
      modifies `mRoot, nodes
      ensures mRoot == if top == old(mRoot) then y else old(mRoot)
      ensures Snapshot(nodes) == WithTriple(old(Snapshot(nodes)), top, x, y, z, b, c)
    {
      ReplaceChild(top, y, nodes);
      LinkChildren(x, y, z, b, c, nodes);
    }

    method LinkChildren(x: TreeNode<V>, y: TreeNode<V>, z: TreeNode<V>, b: TreeNode?<V>, c: TreeNode?<V>,
                        ghost nodes: set<TreeNode<V>>)
      requires {x, y, z} <= nodes && (b != null ==> b in nodes) && (c != null ==> c in nodes)
      modifies nodes
      ensures Snapshot(nodes) == WithChildren(old(Snapshot(nodes)), x, y, z, b, c)
    {
      y.SetLeft(x, nodes);
      y.SetRight(z, nodes);
      x.SetParent(y, nodes);
      z.SetParent(y, nodes);
      x.SetRight(b, nodes);
      z.SetLeft(c, nodes);
      if b != null {
        b.SetParent(x, nodes);
      }
      if c != null {
        c.SetParent(z, nodes);
      }
    }

    method HandBlackDown(parent: TreeNode<V>, grandparent: TreeNode<V>, uncle: TreeNode<V>,
                         ghost nodes: set<TreeNode<V>>)
      requires mRoot != null && {parent, grandparent, uncle, mRoot} <= nodes
      modifies parent`colour, grandparent`colour, uncle`colour, mRoot`colour
      ensures Snapshot(nodes) ==
              WithColour(WithColour(WithColour(WithColour(
                old(Snapshot(nodes)), grandparent, Red), parent, Black), uncle, Black), mRoot, Black)
    {
      grandparent.SetColour(Red, nodes);
      parent.SetColour(Black, nodes);
      uncle.SetColour(Black, nodes);
      mRoot.SetColour(Black, nodes);
    }

    // The same nodes now form the tree t.
    ghost method Reshape(t: Tree<TreeNode<V>>)
      requires Stored(Snapshot(Items(t)), t) && mRoot == Root(t)
      modifies `tree
      ensures tree == t && Shaped()
    {
      tree := t;
    }

    // Red uncle: the grandparent hands its black to both children.
    method PushDown(parent: TreeNode<V>, grandparent: TreeNode<V>, uncle: TreeNode<V>,
                    ghost p: Path<TreeNode<V>>, ghost t: Tree<TreeNode<V>>)
      requires Shaped() && tree == Plug(p, t) && PathOk(p, BlackHeight(t))
      requires !p.Top? && !p.up.Top? && IsRed(Sibling(p.up))
      requires parent == p.item && grandparent == p.up.item && uncle == Sibling(p.up).item
      modifies `tree, Items(tree)
      ensures Shaped() && tree == Plug(p.up.up, PushBlackDown(p, t)) && Items(tree) == old(Items(tree))
    {
      PushBlackDownUpdates(Snapshot(Items(tree)), p, t, mRoot);
      HandBlackDown(parent, grandparent, uncle, Items(tree));
      Reshape(Plug(p.up.up, PushBlackDown(p, t)));
    }

    // Black or no uncle: three nodes become one balanced triple.
    method RotateInserted(inserted: TreeNode<V>, parent: TreeNode<V>, grandparent: TreeNode<V>,
                          ghost p: Path<TreeNode<V>>, ghost t: Tree<TreeNode<V>>)
      requires Shaped() && tree == Plug(p, t) && t.Node? && !p.Top? && !p.up.Top?
      requires inserted == t.item && parent == p.item && grandparent == p.up.item
      modifies `mRoot, `tree, Items(tree)
      ensures Shaped() && tree == Plug(p.up.up, InsertTriple(p, t)) && Items(tree) == old(Items(tree))
    {
      InsertRotation(Snapshot(Items(tree)), p, t);
      RelinkInserted(inserted, parent, grandparent, p, t);
      Reshape(Plug(p.up.up, InsertTriple(p, t)));
    }

    method RelinkInserted(inserted: TreeNode<V>, parent: TreeNode<V>, grandparent: TreeNode<V>,
                          ghost p: Path<TreeNode<V>>, ghost t: Tree<TreeNode<V>>)
      requires Shaped() && tree == Plug(p, t) && t.Node? && !p.Top? && !p.up.Top?
      requires inserted == t.item && parent == p.item && grandparent == p.up.item
      requires TripleReady(Items(tree), InsertTriple(p, t), grandparent)
      requires grandparent.parent == null <==> grandparent == mRoot
      modifies `mRoot, Items(tree)
      ensures mRoot == if grandparent == old(mRoot) then InsertTriple(p, t).item else old(mRoot)
      ensures Snapshot(Items(tree)) == WithRotation(old(Snapshot(Items(tree))), InsertTriple(p, t), grandparent)
    {
      ghost var h: Store<V> := Snapshot(Items(tree));
      var x, y, z, b, c := PickTriple(inserted, parent, grandparent, p, t);
      assert Snapshot(Items(tree)) == h;
      BuildTriple(grandparent, x, Red, y, Black, z, Red, b, c, InsertTriple(p, t), Items(tree));
    }

    // The nodes that a rotation writes to.
    ghost predicate TripleReady(nodes: set<TreeNode<V>>, s: Tree<TreeNode<V>>, top: TreeNode<V>)
      reads top
    {
      s.Node? && s.left.Node? && s.right.Node? && {top, s.item, s.left.item, s.right.item} <= nodes &&
      (s.left.right.Node? ==> s.left.right.item in nodes) && (s.right.left.Node? ==> s.right.left.item in nodes) &&
      (top.parent != null ==> top.parent in nodes && top.parent !in {top, s.item}) && s.item != top
    }

    // Colours and links of a triple s that takes the place of `top`.
    method BuildTriple(top: TreeNode<V>, x: TreeNode<V>, cx: Colour, y: TreeNode<V>, cy: Colour, z: TreeNode<V>,
                       cz: Colour, b: TreeNode?<V>, c: TreeNode?<V>, ghost s: Tree<TreeNode<V>>,
                       ghost nodes: set<TreeNode<V>>)
      requires {top, x, y, z} <= nodes && (b != null ==> b in nodes) && (c != null ==> c in nodes)
      requires top.parent != null ==> top.parent in nodes && top.parent !in {top, y}
      requires top != y && (top.parent == null <==> top == mRoot)
      requires s.Node? && s.left.Node? && s.right.Node?
      requires x == s.left.item && y == s.item && z == s.right.item && b == Root(s.left.right)
      requires c == Root(s.right.left)
      requires cx == s.left.colour && cy == s.colour && cz == s.right.colour
      modifies `mRoot, nodes
      ensures mRoot == if top == old(mRoot) then y else old(mRoot)
      ensures Snapshot(nodes) == WithRotation(old(Snapshot(nodes)), s, top)
    {
      ColourTriple(y, cy, x, cx, z, cz, nodes);
      LinkTriple(top, x, y, z, b, c, nodes);
    }

    method ColourTriple(y: TreeNode<V>, cy: Colour, x: TreeNode<V>, cx: Colour, z: TreeNode<V>, cz: Colour,
                        ghost nodes: set<TreeNode<V>>)
      requires {x, y, z} <= nodes
      modifies x`colour, y`colour, z`colour
      ensures Snapshot(nodes) == WithColour(WithColour(WithColour(old(Snapshot(nodes)), y, cy), x, cx), z, cz)
    {
      y.SetColour(cy, nodes);
      x.SetColour(cx, nodes);
      z.SetColour(cz, nodes);
    }

    // The four ways in which the inserted node can stand below its grandparent.
    method PickTriple(inserted: TreeNode<V>, parent: TreeNode<V>, grandparent: TreeNode<V>,
                      ghost p: Path<TreeNode<V>>, ghost t: Tree<TreeNode<V>>)
      returns (x: TreeNode<V>, y: TreeNode<V>, z: TreeNode<V>, b: TreeNode?<V>, c: TreeNode?<V>)
      requires Stored(Snapshot(Items(tree)), tree) && tree == Plug(p, t) && t.Node? && !p.Top? && !p.up.Top?
      requires inserted == t.item && parent == p.item && grandparent == p.up.item
      ensures var s := InsertTriple(p, t);
              x == s.left.item && y == s.item && z == s.right.item && b == Root(s.left.right) && c == Root(s.right.left)
    {
      AtSubtree(tree, p, t);
      AtChildren(tree, p, t, inserted);
      AtParent(tree, p, t, inserted);
      AtParent(tree, p.up, Attach(p, t, p.colour), parent);
      AtChildren(tree, p.up, Attach(p, t, p.colour), parent);
      if inserted == parent.left && parent == grandparent.left {
        x, y, z, b, c := inserted, parent, grandparent, inserted.right, parent.right;
      } else if inserted == parent.right && parent == grandparent.left {
        x, y, z, b, c := parent, inserted, grandparent, inserted.left, inserted.right;
      } else if inserted == parent.right && parent == grandparent.right {
        x, y, z, b, c := grandparent, parent, inserted, parent.left, inserted.left;
      } else {
        x, y, z, b, c := grandparent, inserted, parent, inserted.left, inserted.right;
      }
    }

    // What stands around a node below the root.
    lemma {:induction false} Around(p: Path<TreeNode<V>>, t: Tree<TreeNode<V>>, n: TreeNode<V>)
      requires Shaped() && tree == Plug(p, t) && Root(t) == n
      ensures n.parent == ParentItem(p)
      ensures !p.Top? ==>
                p.item.parent == ParentItem(p.up) && p.item.colour == p.colour && p.item in Items(tree) &&
                (n == p.item.left <==> p.InLeft?)
      ensures !p.Top? && !p.up.Top? ==>
                p.up.item in Items(tree) && (p.item == p.up.item.left <==> p.up.InLeft?) &&
                Root(Sibling(p.up)) == (if p.up.InLeft? then p.up.item.right else p.up.item.left) &&
                (Sibling(p.up).Node? ==>
                   Sibling(p.up).item.colour == Sibling(p.up).colour && Sibling(p.up).item in Items(tree))
    {
      AtSubtree(tree, p, t);
      AtParent(tree, p, t, n);
      if !p.Top? {
        var w := Attach(p, t, p.colour);
        AtChildren(tree, p.up, w, p.item);
        AtSubtree(tree, p.up, w);
        AtParent(tree, p.up, w, p.item);
        if !p.up.Top? {
          AroundUncle(p.up, w);
        }
      }
    }

    lemma {:induction false} AroundUncle(g: Path<TreeNode<V>>, w: Tree<TreeNode<V>>)
      requires Shaped() && tree == Plug(g, w) && !g.Top?
      ensures g.item in Items(tree)
      ensures Root(Sibling(g)) == if g.InLeft? then g.item.right else g.item.left
      ensures Sibling(g).Node? ==> Sibling(g).item.colour == Sibling(g).colour && Sibling(g).item in Items(tree)
    {
      var v := Attach(g, w, g.colour);
      AtSubtree(tree, g.up, v);
      AtChildren(tree, g.up, v, g.item);
      if Sibling(g).Node? {
        var q := if g.InLeft? then InRight(w, g.item, g.colour, g.up) else InLeft(g.up, g.item, g.colour, w);
        AtSubtree(tree, q, Sibling(g));
        AtChildren(tree, q, Sibling(g), Sibling(g).item);
      }
    }

    method InsertBalanceTransform(node: TreeNode<V>, ghost path: Path<TreeNode<V>>, ghost sub: Tree<TreeNode<V>>)
      requires Shaped() && tree == Plug(path, sub) && sub.Node? && sub.item == node
      requires Sub(sub, BlackHeight(sub)) && PathOk(path, BlackHeight(sub))
      requires if path.Top? then sub.colour.Black? else sub.colour.Red?
      modifies `mRoot, `tree, Items(tree)
      ensures Shaped() && tree == InsertFix(path, sub) && Items(tree) == old(Items(tree))
    {
      var inserted := node;
      ghost var p, t := path, sub;
      while true
        invariant Shaped() && tree == Plug(p, t) && Items(tree) == old(Items(tree))
        invariant t.Node? && t.item == inserted && Sub(t, BlackHeight(t)) && PathOk(p, BlackHeight(t))
        invariant if p.Top? then t.colour.Black? else t.colour.Red?
        invariant InsertFix(p, t) == InsertFix(path, sub)
        decreases p
      {
        Around(p, t, inserted);
        if inserted.parent == null || inserted.parent.parent == null || inserted.parent.colour == Black {
          return;
        }
        var parent := inserted.parent;
        var grandparent := inserted.parent.parent;
        var uncle := if parent == grandparent.left then grandparent.right else grandparent.left;
        if uncle != null && uncle.colour == Red {
          PushBlackDownOk(p, t);
          PushDown(parent, grandparent, uncle, p, t);
          inserted := grandparent;
          p, t := p.up.up, PushBlackDown(p, t);
        } else {
          RotateInserted(inserted, parent, grandparent, p, t);
          return;
        }
      }
    }

    // ----- insertion

    // A new red node at the null link of p, with size and ends kept up to date.
    method AttachNew(v: V, last: TreeNode<V>, lefty: bool, ghost p: Path<TreeNode<V>>) returns (newnode: TreeNode<V>)
      requires Shaped() && Ends() && !p.Top? && tree == Plug(p, Leaf) && last == p.item && lefty == p.InLeft?
      modifies this, last
      ensures fresh(newnode) && newnode.value == v && newnode !in old(Items(tree))
      ensures Shaped() && Ends() && mSize == old(mSize) + 1
      ensures tree == Plug(p, NewLeaf(newnode)) && Items(tree) == old(Items(tree)) + {newnode}
    {
      newnode := LinkNew(v, last, lefty, p);
      EndsAfterAttach(p, newnode);
      Reshape(Plug(p, NewLeaf(newnode)));
      NoteNew(newnode, last, lefty);
    }

    // Size and ends after a new leaf below `last`.
    method NoteNew(newnode: TreeNode<V>, last: TreeNode<V>, lefty: bool)
      requires Shaped()
      modifies `mSize, `mFirst, `mLast
      ensures Shaped() && mSize == old(mSize) + 1
      ensures mFirst == if lefty && last == old(mFirst) then newnode else old(mFirst)
      ensures mLast == if !lefty && last == old(mLast) then newnode else old(mLast)
    {
      mSize := mSize + 1;
      if lefty {
        if last == mFirst {
          mFirst := newnode;
        }
      } else {
        if last == mLast {
          mLast := newnode;
        }
      }
    }

    method LinkNew(v: V, last: TreeNode<V>, lefty: bool, ghost p: Path<TreeNode<V>>) returns (newnode: TreeNode<V>)
      requires Shaped() && !p.Top? && tree == Plug(p, Leaf) && last == p.item && lefty == p.InLeft?
      modifies last
      ensures fresh(newnode) && newnode.value == v && newnode !in Items(tree)
      ensures var done := Plug(p, NewLeaf(newnode));
              Stored(Snapshot(Items(done)), done) && Items(done) == Items(tree) + {newnode} && Root(done) == mRoot
    {
      ghost var h: Store<V> := Snapshot(Items(tree));
      StoredParts<V>(h, p, Leaf);
      newnode := new TreeNode(v, last, Red);
      ghost var nodes := Items(tree) + {newnode};
      if lefty {
        last.SetLeft(newnode, nodes);
      } else {
        last.SetRight(newnode, nodes);
      }
      AttachStored(h, Snapshot(nodes), p, newnode);
    }

    // ----- where a key belongs

    ghost predicate AllAbove(s: seq<TreeNode<V>>, key: K) {
      forall i :: 0 <= i < |s| ==> cmp(key, keyOf(s[i].value))
    }

    ghost predicate NoneAbove(s: seq<TreeNode<V>>, key: K) {
      forall i :: 0 <= i < |s| ==> !cmp(key, keyOf(s[i].value))
    }

    // The first k items are those that the key is not less than.
    ghost predicate SplitsAt(s: seq<TreeNode<V>>, k: nat, key: K) {
      k <= |s| && NoneAbove(s[..k], key) && AllAbove(s[k..], key)
    }

    ghost predicate Has(s: seq<TreeNode<V>>, key: K) {
      exists i :: 0 <= i < |s| && Equivalent(cmp, key, keyOf(s[i].value))
    }

    // The parts of a sorted tree around a node.
    lemma {:induction false} SortedAround(p: Path<TreeNode<V>>, t: Tree<TreeNode<V>>)
      requires Sorted(InOrder(Plug(p, t))) && t.Node?
      ensures forall i :: 0 <= i < |InOrder(t.left)| ==> cmp(keyOf(InOrder(t.left)[i].value), keyOf(t.item.value))
      ensures forall i :: 0 <= i < |InOrder(t.right)| ==> cmp(keyOf(t.item.value), keyOf(InOrder(t.right)[i].value))
    {
      PlugInOrder(p, t);
      SortedMiddle(Before(p), InOrder(t.left), t.item, InOrder(t.right), After(p));
    }

    lemma {:induction false} SortedMiddle(b: seq<TreeNode<V>>, l: seq<TreeNode<V>>, x: TreeNode<V>,
                                          r: seq<TreeNode<V>>, a: seq<TreeNode<V>>)
      requires Sorted(b + (l + [x] + r) + a)
      ensures forall i :: 0 <= i < |l| ==> cmp(keyOf(l[i].value), keyOf(x.value))
      ensures forall i :: 0 <= i < |r| ==> cmp(keyOf(x.value), keyOf(r[i].value))
    {
      var s, m := b + (l + [x] + r) + a, |b| + |l|;
      assert s[m] == x;
      forall i | 0 <= i < |l| ensures cmp(keyOf(l[i].value), keyOf(x.value)) {
        assert s[|b| + i] == l[i];
      }
      forall i | 0 <= i < |r| ensures cmp(keyOf(x.value), keyOf(r[i].value)) {
        assert s[m + 1 + i] == r[i];
      }
    }

    lemma {:induction false} StepLeft(p: Path<TreeNode<V>>, t: Tree<TreeNode<V>>, key: K)
      requires StrictWeakOrder(cmp) && Sorted(InOrder(Plug(p, t))) && t.Node?
      requires AllAbove(After(p), key) && cmp(key, keyOf(t.item.value))
      ensures AllAbove(After(InLeft(p, t.item, t.colour, t.right)), key)
    {
      SortedAround(p, t);
      var r := InOrder(t.right);
      assert forall i :: 0 <= i < |r| ==> cmp(key, keyOf(r[i].value));
    }

    lemma {:induction false} StepRight(p: Path<TreeNode<V>>, t: Tree<TreeNode<V>>, key: K)
      requires StrictWeakOrder(cmp) && Sorted(InOrder(Plug(p, t))) && t.Node?
      requires NoneAbove(Before(p), key) && !cmp(key, keyOf(t.item.value))
      ensures NoneAbove(Before(InRight(t.left, t.item, t.colour, p)), key)
    {
      SortedAround(p, t);
      var l := InOrder(t.left);
      forall i | 0 <= i < |l| ensures !cmp(key, keyOf(l[i].value)) {
        assert cmp(keyOf(l[i].value), keyOf(t.item.value));
      }
    }

    ghost function LastOf(s: seq<TreeNode<V>>): TreeNode?<V> {
      if |s| == 0 then null else s[|s| - 1]
    }

    // Follows the key down to a null link.
    method SearchDown(key: K)
      returns (last: TreeNode?<V>, notLT: TreeNode?<V>, ltLast: bool, ghost p: Path<TreeNode<V>>)
      requires Valid()
      ensures Valid() && Plug(p, Leaf) == tree && last == ParentItem(p) && (last != null ==> ltLast == p.InLeft?)
      ensures SplitsAt(InOrder(tree), |Before(p)|, key) && notLT == LastOf(InOrder(tree)[..|Before(p)|])
    {
      var n := mRoot;
      ghost var t := tree;
      p, last, notLT, ltLast := Top, null, null, false;
      AtSubtree(tree, p, t);
      while n != null
        invariant At(tree, p, t, n) && last == ParentItem(p) && (last != null ==> ltLast == p.InLeft?)
        invariant NoneAbove(Before(p), key) && AllAbove(After(p), key)
        invariant notLT == LastOf(Before(p))
        decreases t
      {
        AtChildren(tree, p, t, n);
        last := n;
        if cmp(key, keyOf(n.value)) {
          StepLeft(p, t, key);
          p, t := InLeft(p, t.item, t.colour, t.right), t.left;
          ltLast := true;
          n := n.left;
        } else {
          StepRight(p, t, key);
          p, t := InRight(t.left, t.item, t.colour, p), t.right;
          ltLast := false;
          notLT := n;
          n := n.right;
        }
      }
      PlugInOrder<TreeNode<V>>(p, Leaf);
      assert InOrder(tree) == Before(p) + After(p);
    }

    lemma {:induction false} SplitMeans(s: seq<TreeNode<V>>, k: nat, key: K)
      requires SplitsAt(s, k, key)
      ensures forall i :: 0 <= i < |s| ==> (cmp(key, keyOf(s[i].value)) <==> k <= i)
    {
      forall i | 0 <= i < |s| ensures cmp(key, keyOf(s[i].value)) <==> k <= i {
        if i < k {
          assert s[..k][i] == s[i];
        } else {
          assert s[k..][i - k] == s[i];
        }
      }
    }

    // Only the item just before the split can be equivalent to the key.
    lemma {:induction false} HasAtSplit(s: seq<TreeNode<V>>, k: nat, key: K)
      requires StrictWeakOrder(cmp) && Sorted(s) && SplitsAt(s, k, key)
      ensures forall i :: 0 <= i < |s| && Equivalent(cmp, key, keyOf(s[i].value)) ==> i == k - 1
      ensures Has(s, key) <==> k > 0 && !cmp(keyOf(s[k - 1].value), key)
    {
      SplitMeans(s, k, key);
      forall i | 0 <= i < |s| ensures Equivalent(cmp, key, keyOf(s[i].value)) ==> i == k - 1 {
        if i < k - 1 {
          assert cmp(keyOf(s[i].value), keyOf(s[k - 1].value));
        }
      }
      if k > 0 && !cmp(keyOf(s[k - 1].value), key) {
        assert Equivalent(cmp, key, keyOf(s[k - 1].value));
      }
    }

    lemma {:induction false} SplitUnique(s: seq<TreeNode<V>>, k: nat, k': nat, key: K)
      requires SplitsAt(s, k, key) && SplitsAt(s, k', key)
      ensures k == k'
    {
      SplitMeans(s, k, key);
      SplitMeans(s, k', key);
      var m := if k < k' then k else k';
      if m < |s| {
        assert cmp(key, keyOf(s[m].value)) <==> k <= m;
      }
    }

    lemma {:induction false} SortedInserted(s: seq<TreeNode<V>>, k: nat, x: TreeNode<V>)
      requires StrictWeakOrder(cmp) && Sorted(s) && SplitsAt(s, k, keyOf(x.value)) && !Has(s, keyOf(x.value))
      ensures Sorted(s[..k] + [x] + s[k..])
    {
      var key := keyOf(x.value);
      forall i | 0 <= i < k ensures cmp(keyOf(s[i].value), key) {
        assert s[..k][i] == s[i];
        assert !Equivalent(cmp, key, keyOf(s[i].value));
      }
      forall i | k <= i < |s| ensures cmp(key, keyOf(s[i].value)) {
        assert s[k..][i - k] == s[i];
      }
    }

    // What an insertion leaves behind before rebalancing: a new leaf in gap k.
    ghost predicate Unbalanced(t: Tree<TreeNode<V>>, k: nat, x: TreeNode<V>)
      reads `tree
      requires k <= |InOrder(t)|
    {
      if t.Leaf? then tree == Node(Leaf, x, Black, Leaf)
      else tree == Plug(GapPath(Top, t, k), NewLeaf(x))
    }

    method InsertFirst(v: V) returns (it: TreeNode<V>)
      requires Valid() && tree.Leaf?
      modifies this
      ensures fresh(it) && it.value == v && Shaped() && Ends() && mSize == old(mSize) + 1
      ensures tree == Node(Leaf, it, Black, Leaf) && Items(tree) == {it}
    {
      it := new TreeNode(v, null, Black);
      mRoot, mFirst, mLast := it, it, it;
      mSize := mSize + 1;
      tree := Node(Leaf, it, Black, Leaf);
      assert Items<TreeNode<V>>(Leaf) == {} && it in Items(tree);
      assert Linked(Snapshot(Items(tree)), tree, null);
      assert InOrder(tree) == [it];
    }

    method UnbalancedInsert(v: V) returns (it: TreeNode<V>, inserted: bool, ghost k: nat)
      requires Valid()
      modifies this, Items(tree)
      ensures SplitsAt(old(InOrder(tree)), k, keyOf(v)) && (inserted <==> !Has(old(InOrder(tree)), keyOf(v)))
      ensures !inserted ==> Valid() && tree == old(tree) && Snapshot(Items(tree)) == old(Snapshot(Items(tree))) &&
                            0 < k <= |InOrder(tree)| && it == InOrder(tree)[k - 1]
      ensures inserted ==> fresh(it) && it.value == v && Shaped() && Ends() && mSize == old(mSize) + 1 &&
                           Unbalanced(old(tree), k, it) && Items(tree) == old(Items(tree)) + {it}
    {
      if mRoot == null {
        it := InsertFirst(v);
        return it, true, 0;
      }
      ghost var h: Store<V> := Snapshot(Items(tree));
      var last, notLT, ltLast;
      ghost var p;
      last, notLT, ltLast, p := SearchDown(keyOf(v));
      assert Snapshot(Items(tree)) == h;
      k := |Before(p)|;
      GapUnique(p);
      HasAtSplit(InOrder(tree), k, keyOf(v));
      if notLT != null && !cmp(keyOf(notLT.value), keyOf(v)) {
        return notLT, false, k;
      }
      LastIsNode(p);
      it := AttachNew(v, last, ltLast, p);
      inserted := true;
    }

    lemma {:induction false} LastIsNode(p: Path<TreeNode<V>>)
      requires Shaped() && tree.Node? && Plug(p, Leaf) == tree
      ensures !p.Top? && p.item in Items(tree)
    {
      AtSubtree<V>(tree, p, Leaf);
      assert p.item in PathItems(p);
    }

    // Sortedness, colours and count after an insertion in gap k.
    lemma {:induction false} InsertedValid(t: Tree<TreeNode<V>>, k: nat, x: TreeNode<V>)
      requires StrictWeakOrder(cmp) && RedBlack(t) && Sorted(InOrder(t))
      requires SplitsAt(InOrder(t), k, keyOf(x.value)) && !Has(InOrder(t), keyOf(x.value))
      ensures RedBlack(Inserted(t, k, x)) && Sorted(InOrder(Inserted(t, k, x)))
      ensures |InOrder(Inserted(t, k, x))| == |InOrder(t)| + 1
    {
      InsertedMeaning(t, k, x);
      SortedInserted(InOrder(t), k, x);
    }

    // Rebalances after a new leaf was put into gap k of the tree `was`.
    method Rebalance(it: TreeNode<V>, ghost was: Tree<TreeNode<V>>, ghost k: nat)
      requires Shaped() && Ends() && RedBlack(was) && k <= |InOrder(was)| && Unbalanced(was, k, it)
      modifies `mRoot, `tree, Items(tree)
      ensures Shaped() && Ends() && tree == Inserted(was, k, it) && Items(tree) == old(Items(tree))
    {
      ghost var p := GapPath(Top, was, k);
      NewLeafIsRoot(was, k, it);
      if it != mRoot {
        GapPathMeaning(Top, was, k);
        NewLeafFits(was, p);
        InsertFixInOrder(p, NewLeaf(it));
        InsertBalanceTransform(it, p, NewLeaf(it));
      }
    }

    lemma {:induction false} NewLeafIsRoot(was: Tree<TreeNode<V>>, k: nat, it: TreeNode<V>)
      requires Shaped() && k <= |InOrder(was)| && Unbalanced(was, k, it)
      ensures it == mRoot <==> was.Leaf?
    {
      if was.Node? {
        var p := GapPath(Top, was, k);
        GapPathMeaning(Top, was, k);
        AtSubtree(tree, p, NewLeaf(it));
        assert !p.Top?;
        PlugRoot(p, NewLeaf(it));
        assert it in Items(NewLeaf(it));
      }
    }

    method Insert(v: V) returns (it: TreeNode<V>, inserted: bool, ghost k: nat)
      requires Valid()
      modifies this, Items(tree)
      ensures Valid()
      ensures SplitsAt(old(InOrder(tree)), k, keyOf(v)) && (inserted <==> !Has(old(InOrder(tree)), keyOf(v)))
      ensures !inserted ==> tree == old(tree) && Snapshot(Items(tree)) == old(Snapshot(Items(tree))) &&
                            0 < k <= |InOrder(tree)| && it == InOrder(tree)[k - 1] &&
                            Equivalent(cmp, keyOf(v), keyOf(it.value))
      ensures inserted ==> fresh(it) && it.value == v && tree == Inserted(old(tree), k, it)
    {
      ghost var was := tree;
      it, inserted, k := UnbalancedInsert(v);
      if inserted {
        InsertedValid(was, k, it);
        Rebalance(it, was, k);
      }
    }

    // ----- insertion with a hint

    // The item before position i, or the last one when i is the end.
    method Previous(n: TreeNode?<V>, ghost i: nat) returns (r: TreeNode?<V>)
      requires Valid() && i <= |InOrder(tree)| && n == NodeOrEnd(i)
      ensures Valid() && r == if i > 0 then InOrder(tree)[i - 1] else null
    {
      if n != null {
        ghost var h: Store<V> := Snapshot(Items(tree));
        r := WalkLeft(n, tree, i);
        assert Snapshot(Items(tree)) == h;
      } else {
        r := mLast;
      }
    }

    ghost function NodeOrEnd(i: nat): TreeNode?<V>
      reads `tree
      requires i <= |InOrder(tree)|
    {
      if i < |InOrder(tree)| then InOrder(tree)[i] else null
    }

    // The key lies strictly between the neighbours of gap i.
    ghost predicate Between(i: nat, key: K)
      reads `tree
      requires i <= |InOrder(tree)|
    {
      (i < |InOrder(tree)| ==> cmp(key, keyOf(InOrder(tree)[i].value))) &&
      (i > 0 ==> cmp(keyOf(InOrder(tree)[i - 1].value), key))
    }

    lemma {:induction false} BetweenSplits(i: nat, key: K)
      requires Valid() && i <= |InOrder(tree)| && Between(i, key)
      ensures SplitsAt(InOrder(tree), i, key) && !Has(InOrder(tree), key)
    {
      var s := InOrder(tree);
      forall j | 0 <= j < i ensures !cmp(key, keyOf(s[j].value)) {
        assert j < i - 1 ==> cmp(keyOf(s[j].value), keyOf(s[i - 1].value));
        assert cmp(keyOf(s[j].value), key);
      }
      forall j | i <= j < |s| ensures cmp(key, keyOf(s[j].value)) {
        assert i < j ==> cmp(keyOf(s[i].value), keyOf(s[j].value));
      }
      HasAtSplit(s, i, key);
    }

    // Checks the hint, and says which node owns the null link before it.
    method TryHint(hint: TreeNode?<V>, ghost i: nat, v: V)
      returns (good: bool, parent: TreeNode?<V>, lefty: bool, ghost p: Path<TreeNode<V>>)
      requires Valid() && i <= |InOrder(tree)| && hint == NodeOrEnd(i)
      ensures Valid() && (good <==> mSize > 0 && Between(i, keyOf(v)))
      ensures good ==> Plug(p, Leaf) == tree && |Before(p)| == i && !p.Top? && parent == p.item && lefty == p.InLeft?
    {
      good, parent, lefty, p := false, null, false, Top;
      if mSize != 0 && (hint == null || cmp(keyOf(v), keyOf(hint.value))) {
        var b4hint := hint;
        good := hint == mFirst;
        if !good {
          HintIsFirst(hint, i);
          b4hint := Previous(hint, i);
          good := cmp(keyOf(b4hint.value), keyOf(v));
        }
        HintIsFirst(hint, i);
        if good {
          lefty, p := HintOwner(hint, i);
          parent := if lefty then hint else b4hint;
        }
      }
    }

    lemma {:induction false} HintIsFirst(hint: TreeNode?<V>, i: nat)
      requires Valid() && i <= |InOrder(tree)| && hint == NodeOrEnd(i) && |InOrder(tree)| > 0
      ensures hint == mFirst <==> i == 0
    {
      DistinctInOrder(tree);
    }

    lemma {:induction false} HintLeftLink(hint: TreeNode?<V>, i: nat)
      requires Valid() && i <= |InOrder(tree)| && hint == NodeOrEnd(i) && hint != null
      ensures hint.left == null <==> NodeAt(Top, tree, i).1.left.Leaf?
      ensures i == 0 ==> hint.left == null
    {
      var (q, s) := NodeAt(Top, tree, i);
      NodeAtMeaning(Top, tree, i);
      AtSubtree(tree, q, s);
      AtChildren(tree, q, s, hint);
    }

    method HintOwner(hint: TreeNode?<V>, ghost i: nat) returns (lefty: bool, ghost p: Path<TreeNode<V>>)
      requires Valid() && i <= |InOrder(tree)| && hint == NodeOrEnd(i) && |InOrder(tree)| > 0
      ensures Valid() && Plug(p, Leaf) == tree && |Before(p)| == i && !p.Top? && lefty == p.InLeft?
      ensures if lefty then p.item == hint else i > 0 && p.item == InOrder(tree)[i - 1]
    {
      lefty := hint != null && hint.left == null;
      if hint != null {
        HintLeftLink(hint, i);
      }
      ghost var j := if lefty then i else i - 1;
      ghost var (q, s) := NodeAt(Top, tree, j);
      NodeAtMeaning(Top, tree, j);
      if lefty {
        GapBefore(tree, i);
        p := InLeft(q, s.item, s.colour, s.right);
      } else {
        GapAfter(tree, i - 1);
        p := InRight(s.left, s.item, s.colour, q);
      }
    }

    // A new leaf at the hint when that is good, and wherever the key belongs otherwise.
    method PlaceHinted(hint: TreeNode?<V>, ghost i: nat, v: V) returns (it: TreeNode<V>, inserted: bool, ghost k: nat)
      requires Valid() && i <= |InOrder(tree)| && hint == NodeOrEnd(i)
      modifies this, Items(tree)
      ensures SplitsAt(old(InOrder(tree)), k, keyOf(v)) && (inserted <==> !Has(old(InOrder(tree)), keyOf(v)))
      ensures !inserted ==> Valid() && tree == old(tree) && Snapshot(Items(tree)) == old(Snapshot(Items(tree))) &&
                            0 < k <= |InOrder(tree)| && it == InOrder(tree)[k - 1]
      ensures inserted ==> fresh(it) && it.value == v && Shaped() && Ends() && mSize == old(mSize) + 1 &&
                           Unbalanced(old(tree), k, it) && Items(tree) == old(Items(tree)) + {it}
    {
      ghost var h: Store<V> := Snapshot(Items(tree));
      var good, parent, lefty;
      ghost var p;
      good, parent, lefty, p := TryHint(hint, i, v);
      assert Snapshot(Items(tree)) == h;
      if good {
        BetweenSplits(i, keyOf(v));
        GapUnique(p);
        LastIsNode(p);
        it := AttachNew(v, parent, lefty, p);
        inserted, k := true, i;
      } else {
        it, inserted, k := UnbalancedInsert(v);
      }
    }

    // The contract is that of Insert: the hint never changes the outcome.
    method InsertHinted(hint: TreeNode?<V>, ghost i: nat, v: V) returns (it: TreeNode<V>, inserted: bool, ghost k: nat)
      requires Valid() && i <= |InOrder(tree)| && hint == NodeOrEnd(i)
      modifies this, Items(tree)
      ensures Valid()
      ensures SplitsAt(old(InOrder(tree)), k, keyOf(v)) && (inserted <==> !Has(old(InOrder(tree)), keyOf(v)))
      ensures !inserted ==> tree == old(tree) && Snapshot(Items(tree)) == old(Snapshot(Items(tree))) &&
                            0 < k <= |InOrder(tree)| && it == InOrder(tree)[k - 1] &&
                            Equivalent(cmp, keyOf(v), keyOf(it.value))
      ensures inserted ==> fresh(it) && it.value == v && tree == Inserted(old(tree), k, it)
    {
      ghost var was := tree;
      it, inserted, k := PlaceHinted(hint, i, v);
      if inserted {
        InsertedValid(was, k, it);
        Rebalance(it, was, k);
      }
    }

    // Whatever gaps two insertions report for equivalent keys, they are the same gap, and the
    // trees both leave behind differ in the new node only.
    lemma {:induction false} HintIrrelevant(t: Tree<TreeNode<V>>, k: nat, x: TreeNode<V>, k': nat, y: TreeNode<V>)
      requires StrictWeakOrder(cmp) && Equivalent(cmp, keyOf(x.value), keyOf(y.value)) && x !in Items(t)
      requires SplitsAt(InOrder(t), k, keyOf(x.value)) && SplitsAt(InOrder(t), k', keyOf(y.value))
      ensures k == k' && Inserted(t, k', y) == Replaced(Inserted(t, k, x), x, y)
      ensures Shape(Inserted(t, k', y)) == Shape(Inserted(t, k, x))
    {
      SplitsAlike(InOrder(t), k', keyOf(y.value), keyOf(x.value));
      SplitUnique(InOrder(t), k, k', keyOf(x.value));
      InsertedAlike(t, k, x, y);
    }

    lemma {:induction false} SplitsAlike(s: seq<TreeNode<V>>, k: nat, key: K, key': K)
      requires StrictWeakOrder(cmp) && Equivalent(cmp, key, key') && SplitsAt(s, k, key)
      ensures SplitsAt(s, k, key')
    {
      forall i | 0 <= i < |s| ensures cmp(key', keyOf(s[i].value)) == cmp(key, keyOf(s[i].value)) {
      }
    }

    // ----- rebalancing after a deletion

    // The sibling of the hole and its children.
    lemma {:induction false} AroundHole(p: Path<TreeNode<V>>, t: Tree<TreeNode<V>>)
      requires Shaped() && tree == Plug(p, t) && !p.Top?
      ensures p.item in Items(tree) && p.item.parent == ParentItem(p.up) && p.item.colour == p.colour
      ensures !p.up.Top? ==> p.up.item in Items(tree) && (p.item == p.up.item.left <==> p.up.InLeft?)
      ensures Root(Sibling(p)) == if p.InLeft? then p.item.right else p.item.left
      ensures Sibling(p).Node? ==>
                var s := Sibling(p);
                s.item in Items(tree) && s.item.colour == s.colour && s.item.left == Root(s.left) &&
                s.item.right == Root(s.right) &&
                (s.left.Node? ==> Reads(s.left)) && (s.right.Node? ==> Reads(s.right))
    {
      AtSubtree(tree, p, t);
      AroundUncle(p, t);
      var w := Attach(p, t, p.colour);
      AtSubtree(tree, p.up, w);
      AtChildren(tree, p.up, w, p.item);
      AtParent(tree, p.up, w, p.item);
      if !p.up.Top? {
        AroundUncle(p.up, w);
      }
      if Sibling(p).Node? {
        SiblingChildren(p, t);
      }
    }

    // The fields of the topmost node of t.
    ghost predicate Reads(t: Tree<TreeNode<V>>)
      reads Root(t)
      requires t.Node?
    {
      t.item.colour == t.colour && t.item.left == Root(t.left) && t.item.right == Root(t.right)
    }

    lemma {:induction false} SiblingChildren(p: Path<TreeNode<V>>, t: Tree<TreeNode<V>>)
      requires Shaped() && tree == Plug(p, t) && !p.Top? && Sibling(p).Node?
      ensures var s := Sibling(p);
              Reads(s) && (s.left.Node? ==> Reads(s.left)) && (s.right.Node? ==> Reads(s.right))
    {
      var s := Sibling(p);
      var q := if p.InLeft? then InRight(t, p.item, p.colour, p.up) else InLeft(p.up, p.item, p.colour, t);
      AtSubtree(tree, q, s);
      AtChildren(tree, q, s, s.item);
      if s.left.Node? {
        AtChildren(tree, InLeft(q, s.item, s.colour, s.right), s.left, s.left.item);
      }
      if s.right.Node? {
        AtChildren(tree, InRight(s.left, s.item, s.colour, q), s.right, s.right.item);
      }
    }

    method PickEraseTriple(parent: TreeNode<V>, sibling: TreeNode<V>, lefty: bool,
                           ghost p: Path<TreeNode<V>>, ghost t: Tree<TreeNode<V>>)
      returns (x: TreeNode<V>, y: TreeNode<V>, z: TreeNode<V>, b: TreeNode?<V>, c: TreeNode?<V>)
      requires Shaped() && tree == Plug(p, t) && !p.Top? && Sibling(p).Node?
      requires IsRed(Sibling(p).right) || IsRed(Sibling(p).left)
      requires parent == p.item && sibling == Sibling(p).item && lefty == p.InLeft?
      ensures var s := EraseTriple(p, t);
              x == s.left.item && y == s.item && z == s.right.item && b == Root(s.left.right) && c == Root(s.right.left)
    {
      SiblingChildren(p, t);
      if sibling.right != null && sibling.right.colour == Red {
        if lefty {
          x, y, z := parent, sibling, sibling.right;
          b, c := y.left, z.left;
        } else {
          z, x, y := parent, sibling, sibling.right;
          b, c := y.left, y.right;
        }
      } else {
        if lefty {
          x, z, y := parent, sibling, sibling.left;
          b, c := y.left, y.right;
        } else {
          z, y, x := parent, sibling, sibling.left;
          b, c := x.right, y.right;
        }
      }
    }

    method RelinkErased(parent: TreeNode<V>, sibling: TreeNode<V>, lefty: bool,
                        ghost p: Path<TreeNode<V>>, ghost t: Tree<TreeNode<V>>)
      requires Shaped() && tree == Plug(p, t) && !p.Top? && Sibling(p).Node?
      requires IsRed(Sibling(p).right) || IsRed(Sibling(p).left)
      requires parent == p.item && sibling == Sibling(p).item && lefty == p.InLeft?
      requires TripleReady(Items(tree), EraseTriple(p, t), parent) && parent.colour == p.colour
      requires parent.parent == null <==> parent == mRoot
      modifies `mRoot, Items(tree)
      ensures mRoot == if parent == old(mRoot) then EraseTriple(p, t).item else old(mRoot)
      ensures Snapshot(Items(tree)) == WithRotation(old(Snapshot(Items(tree))), EraseTriple(p, t), parent)
    {
      ghost var h: Store<V> := Snapshot(Items(tree));
      var x, y, z, b, c := PickEraseTriple(parent, sibling, lefty, p, t);
      assert Snapshot(Items(tree)) == h;
      BuildTriple(parent, x, Black, y, parent.colour, z, Black, b, c, EraseTriple(p, t), Items(tree));
    }

    method RotateErased(parent: TreeNode<V>, sibling: TreeNode<V>, lefty: bool,
                        ghost p: Path<TreeNode<V>>, ghost t: Tree<TreeNode<V>>)
      requires Shaped() && tree == Plug(p, t) && !p.Top? && Sibling(p).Node?
      requires IsRed(Sibling(p).right) || IsRed(Sibling(p).left)
      requires parent == p.item && sibling == Sibling(p).item && lefty == p.InLeft? && parent.colour == p.colour
      modifies `mRoot, `tree, Items(tree)
      ensures Shaped() && tree == Plug(p.up, EraseTriple(p, t)) && Items(tree) == old(Items(tree))
    {
      EraseRotation(Snapshot(Items(tree)), p, t);
      RelinkErased(parent, sibling, lefty, p, t);
      Reshape(Plug(p.up, EraseTriple(p, t)));
    }

    method ReddenSibling(parent: TreeNode<V>, sibling: TreeNode<V>, ghost p: Path<TreeNode<V>>,
                         ghost t: Tree<TreeNode<V>>)
      requires Shaped() && tree == Plug(p, t) && !p.Top? && Sibling(p).Node?
      requires parent == p.item && sibling == Sibling(p).item
      modifies `tree, Items(tree)
      ensures Shaped() && tree == Plug(p.up, SiblingReddened(p, t)) && Items(tree) == old(Items(tree))
    {
      SiblingReddenedStored(Snapshot(Items(tree)), p, t);
      ghost var nodes := Items(tree);
      parent.SetColour(Black, nodes);
      sibling.SetColour(Red, nodes);
      Reshape(Plug(p.up, SiblingReddened(p, t)));
    }

    method RaiseSibling(parent: TreeNode<V>, sibling: TreeNode<V>, lefty: bool,
                        ghost p: Path<TreeNode<V>>, ghost t: Tree<TreeNode<V>>)
      requires Shaped() && tree == Plug(p, t) && !p.Top?
      requires Sibling(p).Node? && Sibling(p).left.Node? && Sibling(p).right.Node?
      requires parent == p.item && sibling == Sibling(p).item && lefty == p.InLeft?
      modifies `mRoot, `tree, Items(tree)
      ensures Shaped() && tree == Plug(SiblingRaised(p), t) && Items(tree) == old(Items(tree))
    {
      Raising(Snapshot(Items(tree)), p, t);
      SiblingChildren(p, t);
      LinkRaised(parent, sibling, lefty, p, Items(tree));
      Reshape(Plug(SiblingRaised(p), t));
    }

    method LinkRaised(parent: TreeNode<V>, sibling: TreeNode<V>, lefty: bool, ghost p: Path<TreeNode<V>>,
                      ghost nodes: set<TreeNode<V>>)
      requires !p.Top? && Sibling(p).Node? && Sibling(p).left.Node? && Sibling(p).right.Node?
      requires parent == p.item && sibling == Sibling(p).item && lefty == p.InLeft?
      requires sibling.left == Sibling(p).left.item && sibling.right == Sibling(p).right.item
      requires {parent, sibling, sibling.left, sibling.right} <= nodes
      requires parent.parent != null ==> parent.parent in nodes
      requires parent.parent !in {parent, sibling} && parent != sibling && (parent.parent == null <==> parent == mRoot)
      modifies `mRoot, nodes
      ensures mRoot == if parent == old(mRoot) then sibling else old(mRoot)
      ensures Snapshot(nodes) == WithSiblingRaised(old(Snapshot(nodes)), p)
    {
      var b, c := sibling.right, sibling.left;
      ReplaceChild(parent, sibling, nodes);
      parent.SetColour(Red, nodes);
      sibling.SetColour(Black, nodes);
      if lefty {
        parent.SetRight(c, nodes);
        c.SetParent(parent, nodes);
        parent.SetParent(sibling, nodes);
        sibling.SetLeft(parent, nodes);
      } else {
        parent.SetLeft(b, nodes);
        b.SetParent(parent, nodes);
        parent.SetParent(sibling, nodes);
        sibling.SetRight(parent, nodes);
      }
    }

    // The state between two rounds: the tree at the hole of p lacks one black.
    ghost predicate LacksBlack(parent: TreeNode<V>, lefty: bool, p: Path<TreeNode<V>>, t: Tree<TreeNode<V>>)
      reads `tree, `mRoot, Items(tree)
    {
      Shaped() && tree == Plug(p, t) && !p.Top? && parent == p.item && lefty == p.InLeft? &&
      !IsRed(t) && Sub(t, BlackHeight(t)) && PathOk(p, BlackHeight(t) + 1)
    }

    // Case 3: returns null when the root was reached.
    method PassBlackUp(parent: TreeNode<V>, sibling: TreeNode<V>, ghost p: Path<TreeNode<V>>,
                       ghost t: Tree<TreeNode<V>>)
      returns (grandparent: TreeNode?<V>, lefty: bool)
      requires LacksBlack(parent, p.InLeft?, p, t) && p.colour.Black? && Sibling(p).Node? && sibling == Sibling(p).item
      requires Sibling(p).colour.Black? && !IsRed(Sibling(p).left) && !IsRed(Sibling(p).right)
      modifies `tree, Items(tree)
      ensures grandparent == null ==> Shaped() && tree == DoubleBlack(p, t)
      ensures grandparent != null ==> LacksBlack(grandparent, lefty, p.up, SiblingReddened(p, t))
      ensures grandparent != null ==>
                DoubleBlack(p.up, SiblingReddened(p, t)) == DoubleBlack(p, t) && Pending(p.up) < Pending(p)
      ensures Items(tree) == old(Items(tree))
    {
      PassUp(p, t);
      AroundHole(p, t);
      grandparent := parent.parent;
      lefty := grandparent != null && parent == grandparent.left;
      ReddenSibling(parent, sibling, p, t);
    }

    method DoubleBlackTransform(start: TreeNode<V>, startLefty: bool, ghost path: Path<TreeNode<V>>,
                                ghost sub: Tree<TreeNode<V>>)
      requires LacksBlack(start, startLefty, path, sub)
      modifies `mRoot, `tree, Items(tree)
      ensures Shaped() && tree == DoubleBlack(path, sub) && Items(tree) == old(Items(tree))
    {
      var parent: TreeNode<V>, lefty := start, startLefty;
      ghost var p, t := path, sub;
      while true
        invariant LacksBlack(parent, lefty, p, t) && Items(tree) == old(Items(tree))
        invariant DoubleBlack(p, t) == DoubleBlack(path, sub)
        decreases Pending(p)
      {
        SiblingIsNode(p, t);
        AroundHole(p, t);
        var sibling := if lefty then parent.right else parent.left;
        if sibling.colour == Black {
          if (sibling.right != null && sibling.right.colour == Red)
            || (sibling.left != null && sibling.left.colour == Red) {
            RotateErased(parent, sibling, lefty, p, t);
            return;
          } else if parent.colour == Red {
            ReddenSibling(parent, sibling, p, t);
            return;
          } else {
            var grandparent;
            grandparent, lefty := PassBlackUp(parent, sibling, p, t);
            if grandparent == null {
              return;
            }
            parent := grandparent;
            p, t := p.up, SiblingReddened(p, t);
          }
        } else {
          RaiseOnce(p, t);
          RaiseSibling(parent, sibling, lefty, p, t);
          p := SiblingRaised(p);
        }
      }
    }

    // ----- deletion

    // The predecessor takes over the links and the colour of d.
    method SwapIn(d: TreeNode<V>, predecessor: TreeNode<V>, ghost nodes: set<TreeNode<V>>)
      requires {d, predecessor} <= nodes && d != predecessor && d.left != null && d.right != null
      requires d.left in nodes && d.right in nodes && d !in {d.left, d.right}
      requires d.parent != null ==> d.parent in nodes && d.parent !in {d, predecessor}
      requires d.parent == null <==> d == mRoot
      modifies `mRoot, nodes
      ensures mRoot == if d == old(mRoot) then predecessor else old(mRoot)
      ensures Snapshot(nodes) == WithSwap(old(Snapshot(nodes)), d, predecessor)
    {
      LinkFromParent(d, predecessor, nodes);
      TakeLinks(d, predecessor, nodes);
    }

    method TakeLinks(d: TreeNode<V>, predecessor: TreeNode<V>, ghost nodes: set<TreeNode<V>>)
      requires {d, predecessor} <= nodes && d != predecessor && d.left != null && d.right != null
      requires d.left in nodes && d.right in nodes && d !in {d.left, d.right}
      modifies nodes
      ensures Snapshot(nodes) == WithLinksOf(old(Snapshot(nodes)), d, predecessor)
    {
      if predecessor != d.left {
        d.left.SetParent(predecessor, nodes);
        predecessor.SetLeft(d.left, nodes);
      }
      d.right.SetParent(predecessor, nodes);
      predecessor.SetColour(d.colour, nodes);
      predecessor.SetParent(d.parent, nodes);
      predecessor.SetRight(d.right, nodes);
    }

    // A node has been taken out: all links are right except the one into the hole of q,
    // where the tree `rest`, still linked to `from`, has to go.
    ghost predicate Detached(q: Path<TreeNode<V>>, x: TreeNode?<V>, rest: Tree<TreeNode<V>>, from: TreeNode?<V>)
      reads `mRoot, Items(rest), PathItems(q)
    {
      Open(Snapshot(Items(rest) + PathItems(q)), q, x, rest, from) && (q.Top? || mRoot == Root(Plug(q, Leaf)))
    }

    method DetachInner(d: TreeNode<V>, predecessor: TreeNode<V>, ghost p: Path<TreeNode<V>>, ghost t: Tree<TreeNode<V>>)
      requires Shaped() && tree == Plug(p, t) && t.Node? && t.left.Node? && t.right.Node?
      requires d == t.item && predecessor == Pred(p, t).item
      modifies `mRoot, Items(tree)
      ensures Detached(SwapPath(p, t), SwapHole(p, t), Pred(p, t).left, predecessor)
      ensures Items(Pred(p, t).left) + PathItems(SwapPath(p, t)) == Items(tree) - {d}
    {
      ghost var nodes := Items(tree);
      ghost var q, rest := SwapPath(p, t), Pred(p, t).left;
      Swapping(Snapshot(nodes), p, t);
      SwapItems(p, t);
      SwapRoot(p, t, Leaf);
      PlugItems(q, rest);
      SwapIn(d, predecessor, nodes);
      OpenWithin(Snapshot(nodes), Snapshot(Items(rest) + PathItems(q)), q, SwapHole(p, t), rest, predecessor);
    }

    lemma {:induction false} DetachEnd(p: Path<TreeNode<V>>, t: Tree<TreeNode<V>>)
      requires Shaped() && tree == Plug(p, t) && t.Node? && (t.left.Leaf? || t.right.Leaf?)
      ensures Detached(p, t.item, OnlyChild(t), t.item)
      ensures Items(OnlyChild(t)) + PathItems(p) == Items(tree) - {t.item}
    {
      var h: Store<V> := Snapshot(Items(tree));
      StoredParts(h, p, t);
      assert Items<TreeNode<V>>(Leaf) == {};
      OpenWithin(h, Snapshot(Items(OnlyChild(t)) + PathItems(p)), p, t.item, OnlyChild(t), t.item);
      if !p.Top? {
        PlugRootFixed(p, t, Leaf);
      }
    }

    // Sets the link from `parent` into the hole of q.
    method SetHole(parent: TreeNode<V>, lefty: bool, n: TreeNode?<V>, ghost q: Path<TreeNode<V>>,
                   ghost nodes: set<TreeNode<V>>)
      requires !q.Top? && parent == q.item && lefty == q.InLeft? && parent in nodes
      modifies parent
      ensures Snapshot(nodes) == WithHole(old(Snapshot(nodes)), q, n)
    {
      if lefty {
        parent.SetLeft(n, nodes);
      } else {
        parent.SetRight(n, nodes);
      }
    }

    method EmptyHole(parent: TreeNode<V>, lefty: bool, ghost q: Path<TreeNode<V>>, ghost x: TreeNode?<V>,
                     ghost from: TreeNode?<V>)
      requires Detached(q, x, Leaf, from) && !q.Top? && parent == q.item && lefty == q.InLeft?
      modifies `tree, PathItems(q)
      ensures Shaped() && tree == Plug(q, Leaf) && Items(tree) == PathItems(q)
    {
      ghost var nodes := PathItems(q);
      assert Items<TreeNode<V>>(Leaf) + nodes == nodes;
      HoleEmptied(Snapshot(nodes), q, x);
      SetHole(parent, lefty, null, q, nodes);
      Reshape(Plug(q, Leaf));
    }

    method FillHole(parent: TreeNode<V>, lefty: bool, child: TreeNode<V>, ghost q: Path<TreeNode<V>>,
                    ghost x: TreeNode?<V>, ghost rest: Tree<TreeNode<V>>, ghost from: TreeNode?<V>)
      requires Detached(q, x, rest, from) && !q.Top? && parent == q.item && lefty == q.InLeft? && child == Root(rest)
      modifies `tree, Items(rest), PathItems(q)
      ensures Shaped() && tree == Plug(q, Blackened(rest)) && Items(tree) == Items(rest) + PathItems(q)
    {
      ghost var nodes := Items(rest) + PathItems(q);
      HoleFilled(Snapshot(nodes), q, x, rest, from);
      PlugRootFixed(q, Leaf, Blackened(rest));
      SetHole(parent, lefty, child, q, nodes);
      child.SetParent(parent, nodes);
      child.SetColour(Black, nodes);
      Reshape(Plug(q, Blackened(rest)));
    }

    method NewRoot(child: TreeNode?<V>, ghost x: TreeNode?<V>, ghost rest: Tree<TreeNode<V>>, ghost from: TreeNode?<V>)
      requires Detached(Top, x, rest, from) && child == Root(rest)
      modifies `mRoot, `tree, Items(rest)
      ensures Shaped() && tree == Blackened(rest) && Items(tree) == Items(rest)
    {
      ghost var nodes := Items(rest);
      assert nodes + PathItems<TreeNode<V>>(Top) == nodes;
      mRoot := child;
      if child != null {
        RootLeft(Snapshot(nodes), rest, from);
        child.SetParent(null, nodes);
        child.SetColour(Black, nodes);
      }
      Reshape(Blackened(rest));
    }

    method CloseHole(child: TreeNode?<V>, parent: TreeNode?<V>, lefty: bool, colour: Colour, ghost q: Path<TreeNode<V>>,
                     ghost x: TreeNode?<V>, ghost rest: Tree<TreeNode<V>>, ghost from: TreeNode?<V>)
      requires Detached(q, x, rest, from) && parent == ParentItem(q) && child == Root(rest)
      requires parent != null ==> lefty == q.InLeft?
      requires PathOk(q, Weight(colour)) && (colour.Red? ==> rest.Leaf?)
      modifies `mRoot, `tree, Items(rest), PathItems(q)
      ensures Shaped() && tree == EraseEnd(q, colour, rest) && Items(tree) == Items(rest) + PathItems(q)
    {
      if parent == null {
        NewRoot(child, x, rest, from);
      } else if colour == Red {
        EmptyHole(parent, lefty, q, x, from);
      } else if child != null {
        FillHole(parent, lefty, child, q, x, rest, from);
      } else {
        EmptyHole(parent, lefty, q, x, from);
        DoubleBlackTransform(parent, lefty, q, Leaf);
      }
    }

    ghost function FirstOf(s: seq<TreeNode<V>>): TreeNode?<V> {
      if |s| == 0 then null else s[0]
    }

    lemma {:induction false} EndsWithout(s: seq<TreeNode<V>>, i: nat)
      requires i < |s| && NoRepeats(s)
      ensures var s' := s[..i] + s[i + 1..];
              FirstOf(s') == (if i > 0 then s[0] else if |s| > 1 then s[1] else null) &&
              LastOf(s') == (if i + 1 < |s| then s[|s| - 1] else if i > 0 then s[i - 1] else null)
      ensures s[i] == s[0] <==> i == 0
      ensures s[i] == s[|s| - 1] <==> i == |s| - 1
    {
    }

    // Size and ends once item i is gone.
    method ForgetItem(d: TreeNode<V>, ghost i: nat)
      requires Shaped() && Ends() && i < |InOrder(tree)| && d == InOrder(tree)[i]
      modifies `mSize, `mFirst, `mLast
      ensures Shaped() && mSize == old(mSize) - 1
      ensures EndsOf(InOrder(tree)[..i] + InOrder(tree)[i + 1..])
    {
      ghost var s := InOrder(tree);
      ghost var h: Store<V> := Snapshot(Items(tree));
      DistinctInOrder(tree);
      EndsWithout(s, i);
      mSize := mSize - 1;
      if d == mFirst {
        if d == mLast {
          mFirst := null;
          mLast := null;
        } else {
          mFirst := WalkRight(d, tree, i);
        }
      } else if d == mLast {
        mLast := WalkLeft(d, tree, i);
      }
      assert Snapshot(Items(tree)) == h;
    }

    // The child, parent, side and colour that the erasure of d leaves to be dealt with.
    ghost predicate TakenOut(p: Path<TreeNode<V>>, t: Tree<TreeNode<V>>, child: TreeNode?<V>, parent: TreeNode?<V>,
                             lefty: bool, colour: Colour, q: Path<TreeNode<V>>, rest: Tree<TreeNode<V>>)
    {
      t.Node? && child == Root(rest) && parent == ParentItem(q) && (parent != null ==> lefty == q.InLeft?) &&
      if t.left.Node? && t.right.Node? then
        q == SwapPath(p, t) && rest == Pred(p, t).left && colour == Pred(p, t).colour
      else
        q == p && rest == OnlyChild(t) && colour == t.colour
    }

    method TakeOutInner(d: TreeNode<V>, ghost p: Path<TreeNode<V>>, ghost t: Tree<TreeNode<V>>)
      returns (child: TreeNode?<V>, parent: TreeNode?<V>, lefty: bool, colour: Colour)
      requires Shaped() && tree == Plug(p, t) && t.Node? && d == t.item && t.left.Node? && t.right.Node?
      modifies `mRoot, Items(tree)
      ensures TakenOut(p, t, child, parent, lefty, colour, SwapPath(p, t), Pred(p, t).left)
      ensures Detached(SwapPath(p, t), SwapHole(p, t), Pred(p, t).left, Pred(p, t).item)
      ensures Items(Pred(p, t).left) + PathItems(SwapPath(p, t)) == Items(tree) - {d}
    {
      ghost var h: Store<V> := Snapshot(Items(tree));
      PredIsPrevious(p, t);
      NodeUnique(p, t);
      var predecessor := WalkLeft(d, tree, Index(p, t));
      assert Snapshot(Items(tree)) == h;
      PredAround(p, t);
      colour := predecessor.colour;
      child := predecessor.left;
      lefty := predecessor == predecessor.parent.left;
      parent := if predecessor != d.left then predecessor.parent else predecessor;
      DetachInner(d, predecessor, p, t);
    }

    // How the predecessor is linked before the swap.
    lemma {:induction false} PredAround(p: Path<TreeNode<V>>, t: Tree<TreeNode<V>>)
      requires Shaped() && tree == Plug(p, t) && t.Node? && t.left.Node? && t.right.Node?
      ensures var n, q := Pred(p, t).item, SwapPath(p, t);
              n.colour == Pred(p, t).colour && n.left == Root(Pred(p, t).left) && n.parent != null &&
              !q.Top? && (n == n.parent.left <==> q.InLeft?) &&
              ParentItem(q) == if n != t.item.left then n.parent else n
    {
      var above := InLeft(p, t.item, t.colour, t.right);
      var (q, s) := Rightmost(above, t.left);
      RightmostMeaning(above, t.left);
      AtSubtree(tree, p, t);
      AtChildren(tree, p, t, t.item);
      SwapApart(p, t);
      AtSubtree(tree, q, s);
      AtChildren(tree, q, s, s.item);
      AtParent(tree, q, s, s.item);
      if t.left.right.Node? {
        RightmostParent(above, SwapBase(p, t), t.left);
      }
    }

    method TakeOut(d: TreeNode<V>, ghost p: Path<TreeNode<V>>, ghost t: Tree<TreeNode<V>>)
      returns (child: TreeNode?<V>, parent: TreeNode?<V>, lefty: bool, colour: Colour, ghost q: Path<TreeNode<V>>,
               ghost x: TreeNode?<V>, ghost rest: Tree<TreeNode<V>>, ghost from: TreeNode?<V>)
      requires Shaped() && tree == Plug(p, t) && t.Node? && d == t.item
      modifies `mRoot, Items(tree)
      ensures TakenOut(p, t, child, parent, lefty, colour, q, rest) && Detached(q, x, rest, from)
      ensures Items(rest) + PathItems(q) == Items(tree) - {d}
    {
      AtSubtree(tree, p, t);
      AtChildren(tree, p, t, d);
      if d.left != null && d.right != null {
        child, parent, lefty, colour := TakeOutInner(d, p, t);
        q, x, rest, from := SwapPath(p, t), SwapHole(p, t), Pred(p, t).left, Pred(p, t).item;
      } else {
        DetachEnd(p, t);
        AtParent(tree, p, t, d);
        q, x, rest, from := p, d, OnlyChild(t), d;
        child := if d.left != null then d.left else d.right;
        parent := d.parent;
        colour := d.colour;
        lefty := parent != null && d == parent.left;
      }
    }

    lemma {:induction false} SortedWithout(s: seq<TreeNode<V>>, i: nat)
      requires Sorted(s) && i < |s|
      ensures Sorted(s[..i] + s[i + 1..])
    {
    }

    method EraseNode(d: TreeNode<V>, ghost i: nat)
      requires Valid() && i < |InOrder(tree)| && d == InOrder(tree)[i]
      modifies this, Items(tree)
      ensures Valid() && tree == Removed(old(tree), i) && Items(tree) == old(Items(tree)) - {d}
    {
      ghost var was := tree;
      ghost var (p, t) := NodeAt(Top, tree, i);
      NodeAtMeaning(Top, tree, i);
      RemovedMeaning(tree, i);
      SortedWithout(InOrder(tree), i);
      ForgetItem(d, i);
      Unlink(d, p, t);
    }

    method Unlink(d: TreeNode<V>, ghost p: Path<TreeNode<V>>, ghost t: Tree<TreeNode<V>>)
      requires Shaped() && RedBlack(tree) && tree == Plug(p, t) && t.Node? && d == t.item
      modifies `mRoot, `tree, Items(tree)
      ensures Shaped() && tree == Erased(p, t) && Items(tree) == old(Items(tree)) - {d}
    {
      var child, parent, lefty, colour;
      ghost var q, x, rest, from;
      child, parent, lefty, colour, q, x, rest, from := TakeOut(d, p, t);
      ErasedIsClosed(p, t, q, rest, colour);
      CloseHole(child, parent, lefty, colour, q, x, rest, from);
    }

    lemma {:induction false} ErasedIsClosed(p: Path<TreeNode<V>>, t: Tree<TreeNode<V>>, q: Path<TreeNode<V>>,
                                            rest: Tree<TreeNode<V>>, colour: Colour)
      requires t.Node? && RedBlack(Plug(p, t))
      requires if t.left.Node? && t.right.Node?
               then q == SwapPath(p, t) && rest == Pred(p, t).left && colour == Pred(p, t).colour
               else q == p && rest == OnlyChild(t) && colour == t.colour
      ensures PathOk(q, Weight(colour)) && (colour.Red? ==> rest.Leaf?)
      ensures Erased(p, t) == EraseEnd(q, colour, rest)
    {
      PlugRedBlack(p, t);
      if t.left.Node? && t.right.Node? {
        RightmostEndNode(SwapBase(p, t), t.left);
        RightmostSameTree(InLeft(p, t.item, t.colour, t.right), SwapBase(p, t), t.left);
        EndNodeHeights(q, Pred(p, t));
        assert OnlyChild(Pred(p, t)) == rest;
      } else {
        EndNodeHeights(p, t);
      }
    }

    // ----- lookup

    ghost predicate AllBelow(s: seq<TreeNode<V>>, key: K) {
      forall i :: 0 <= i < |s| ==> cmp(keyOf(s[i].value), key)
    }

    ghost predicate NoneBelow(s: seq<TreeNode<V>>, key: K) {
      forall i :: 0 <= i < |s| ==> !cmp(keyOf(s[i].value), key)
    }

    lemma {:induction false} StepLeftLower(p: Path<TreeNode<V>>, t: Tree<TreeNode<V>>, key: K)
      requires StrictWeakOrder(cmp) && Sorted(InOrder(Plug(p, t))) && t.Node?
      requires NoneBelow(After(p), key) && !cmp(keyOf(t.item.value), key)
      ensures NoneBelow(After(InLeft(p, t.item, t.colour, t.right)), key)
    {
      SortedAround(p, t);
      var r := InOrder(t.right);
      forall i | 0 <= i < |r| ensures !cmp(keyOf(r[i].value), key) {
        assert cmp(keyOf(t.item.value), keyOf(r[i].value));
      }
    }

    lemma {:induction false} StepRightLower(p: Path<TreeNode<V>>, t: Tree<TreeNode<V>>, key: K)
      requires StrictWeakOrder(cmp) && Sorted(InOrder(Plug(p, t))) && t.Node?
      requires AllBelow(Before(p), key) && cmp(keyOf(t.item.value), key)
      ensures AllBelow(Before(InRight(t.left, t.item, t.colour, p)), key)
    {
      SortedAround(p, t);
      var l := InOrder(t.left);
      assert forall i :: 0 <= i < |l| ==> cmp(keyOf(l[i].value), key);
    }

    // The only item equivalent to the key, or the end.
    method Find(key: K) returns (r: TreeNode?<V>)
      requires Valid()
      ensures r != null <==> Has(InOrder(tree), key)
      ensures r != null ==> r in InOrder(tree) && Equivalent(cmp, key, keyOf(r.value))
      ensures forall i ::
        0 <= i < |InOrder(tree)| && Equivalent(cmp, key, keyOf(InOrder(tree)[i].value)) ==> r == InOrder(tree)[i]
    {
      var n := mRoot;
      var notLT: TreeNode?<V> := null;
      ghost var p: Path<TreeNode<V>>, t := Top, tree;
      AtSubtree(tree, p, t);
      while n != null
        invariant At(tree, p, t, n) && notLT == LastOf(Before(p))
        invariant NoneAbove(Before(p), key) && AllAbove(After(p), key)
        decreases t
      {
        AtChildren(tree, p, t, n);
        if cmp(key, keyOf(n.value)) {
          StepLeft(p, t, key);
          p, t := InLeft(p, t.item, t.colour, t.right), t.left;
          n := n.left;
        } else {
          StepRight(p, t, key);
          p, t := InRight(t.left, t.item, t.colour, p), t.right;
          notLT := n;
          n := n.right;
        }
      }
      FoundIsUnique(p, key);
      if notLT != null && !cmp(keyOf(notLT.value), key) {
        r := notLT;
      } else {
        r := null;
      }
    }

    lemma {:induction false} FoundIsUnique(p: Path<TreeNode<V>>, key: K)
      requires StrictWeakOrder(cmp) && Sorted(InOrder(tree)) && Plug(p, Leaf) == tree
      requires NoneAbove(Before(p), key) && AllAbove(After(p), key)
      ensures var n := LastOf(Before(p)); var hit := n != null && !cmp(keyOf(n.value), key);
              (hit <==> Has(InOrder(tree), key)) &&
              (hit ==> n in InOrder(tree) && Equivalent(cmp, key, keyOf(n.value))) &&
              forall i :: 0 <= i < |InOrder(tree)| && Equivalent(cmp, key, keyOf(InOrder(tree)[i].value)) ==>
                hit && n == InOrder(tree)[i]
    {
      PlugInOrder<TreeNode<V>>(p, Leaf);
      var s, k := InOrder(tree), |Before(p)|;
      assert s == Before(p) + After(p) && s[..k] == Before(p) && s[k..] == After(p);
      HasAtSplit(s, k, key);
      SplitMeans(s, k, key);
    }

    // The first item that is not less than the key.
    method LowerBound(key: K) returns (r: TreeNode?<V>, ghost k: nat)
      requires Valid()
      ensures k <= |InOrder(tree)| && r == NodeOrEnd(k)
      ensures AllBelow(InOrder(tree)[..k], key) && NoneBelow(InOrder(tree)[k..], key)
    {
      var n := mRoot;
      r := null;
      ghost var p: Path<TreeNode<V>>, t := Top, tree;
      AtSubtree(tree, p, t);
      while n != null
        invariant At(tree, p, t, n) && r == FirstOf(After(p))
        invariant AllBelow(Before(p), key) && NoneBelow(After(p), key)
        decreases t
      {
        AtChildren(tree, p, t, n);
        if cmp(keyOf(n.value), key) {
          StepRightLower(p, t, key);
          p, t := InRight(t.left, t.item, t.colour, p), t.right;
          n := n.right;
        } else {
          StepLeftLower(p, t, key);
          p, t := InLeft(p, t.item, t.colour, t.right), t.left;
          r := n;
          n := n.left;
        }
      }
      k := |Before(p)|;
      SplitByPath(p);
    }

    lemma {:induction false} SplitByPath(p: Path<TreeNode<V>>)
      requires Plug(p, Leaf) == tree
      ensures var s, k := InOrder(tree), |Before(p)|;
              k <= |s| && s[..k] == Before(p) && s[k..] == After(p) && FirstOf(After(p)) == NodeOrEnd(k)
    {
      PlugInOrder<TreeNode<V>>(p, Leaf);
      assert InOrder(tree) == Before(p) + After(p);
    }

    // The first item that is greater than the key.
    method UpperBound(key: K) returns (r: TreeNode?<V>, ghost k: nat)
      requires Valid()
      ensures k <= |InOrder(tree)| && r == NodeOrEnd(k) && SplitsAt(InOrder(tree), k, key)
    {
      var n := mRoot;
      r := null;
      ghost var p: Path<TreeNode<V>>, t := Top, tree;
      AtSubtree(tree, p, t);
      while n != null
        invariant At(tree, p, t, n) && r == FirstOf(After(p))
        invariant NoneAbove(Before(p), key) && AllAbove(After(p), key)
        decreases t
      {
        AtChildren(tree, p, t, n);
        if cmp(key, keyOf(n.value)) {
          StepLeft(p, t, key);
          p, t := InLeft(p, t.item, t.colour, t.right), t.left;
          r := n;
          n := n.left;
        } else {
          StepRight(p, t, key);
          p, t := InRight(t.left, t.item, t.colour, p), t.right;
          n := n.right;
        }
      }
      k := |Before(p)|;
      SplitByPath(p);
    }

    // The tree is t without its item i, which is equivalent to the key.
    ghost predicate ErasedAt(t: Tree<TreeNode<V>>, i: nat, key: K)
      reads `tree
    {
      i < |InOrder(t)| && Equivalent(cmp, key, keyOf(InOrder(t)[i].value)) && RedBlack(t) && tree == Removed(t, i)
    }

    // Erases the item equivalent to the key, if any; says how many were erased.
    method EraseKey(key: K) returns (count: nat)
      requires Valid()
      modifies this, Items(tree)
      ensures Valid() && count == if Has(old(InOrder(tree)), key) then 1 else 0
      ensures count == 0 ==> tree == old(tree) && Snapshot(Items(tree)) == old(Snapshot(Items(tree)))
      ensures count == 1 ==> exists i :: ErasedAt(old(tree), i, key)
    {
      ghost var h: Store<V> := Snapshot(Items(tree));
      var n := Find(key);
      assert Snapshot(Items(tree)) == h;
      if n == null {
        count := 0;
      } else {
        ghost var i :| 0 <= i < |InOrder(tree)| && InOrder(tree)[i] == n;
        ghost var was := tree;
        EraseNode(n, i);
        assert ErasedAt(was, i, key);
        count := 1;
      }
    }

    // Every tree that insertions and deletions can produce is shallow.
    lemma {:induction false} ShallowTree()
      requires Valid()
      ensures mSize + 1 >= Pow2((Height(tree) + 1) / 2)
    {
      HeightBound(tree);
    }

    // ----- visiting every element

    // From the first node, stepping right visits every node once, in order.
    method VisitForward() returns (visited: seq<TreeNode<V>>)
      requires Valid()
      ensures visited == InOrder(tree)
    {
      ghost var h, s, i: nat := Snapshot(Items(tree)), InOrder(tree), 0;
      visited := [];
      var n := mFirst;
      while n != null
        invariant i <= |s| && visited == s[..i] && n == (if i < |s| then s[i] else null)
        invariant Snapshot(Items(tree)) == h
        decreases |s| - i
      {
        visited := visited + [n];
        n := WalkRight(n, tree, i);
        i := i + 1;
      }
    }

    // From the last node, stepping left visits them the other way round.
    method VisitBackward() returns (visited: seq<TreeNode<V>>)
      requires Valid()
      ensures |visited| == |InOrder(tree)|
      ensures forall k | 0 <= k < |visited| :: visited[k] == InOrder(tree)[|visited| - 1 - k]
    {
      ghost var h, s, i: nat := Snapshot(Items(tree)), InOrder(tree), |InOrder(tree)|;
      visited := [];
      var n := mLast;
      while n != null
        invariant i <= |s| && |visited| == |s| - i && n == (if i > 0 then s[i - 1] else null)
        invariant forall k | 0 <= k < |visited| :: visited[k] == s[|s| - 1 - k]
        invariant Snapshot(Items(tree)) == h
        decreases i
      {
        visited := visited + [n];
        n := WalkLeft(n, tree, i - 1);
        i := i - 1;
      }
    }

    // How far clearing the tree `was` is when t is left.
    ghost predicate Clearing(trace: seq<Event<V>>, was: Tree<TreeNode<V>>, t: Tree<TreeNode<V>>) {
      Orderly(trace) && ReleasedNodes(trace) + PostOrder(t) == PostOrder(was) && Distinct(was)
      && NodesOf(trace) <= Items(was)
    }

    // What is left was not given back.
    lemma {:induction false} StillLive(trace: seq<Event<V>>, was: Tree<TreeNode<V>>, t: Tree<TreeNode<V>>,
                                       n: TreeNode<V>)
      requires Clearing(trace, was, t) && n in Items(t)
      ensures n !in ReleasedNodes(trace) && n in Items(was)
    {
      PostOrderOnce(was);
      PostOrderItems(t, n);
      PostOrderItems(was, n);
      var gone, rest := ReleasedNodes(trace), PostOrder(t);
      var k :| 0 <= k < |rest| && rest[k] == n;
      assert PostOrder(was)[|gone| + k] == n;
      assert forall m | 0 <= m < |gone| :: PostOrder(was)[m] == gone[m];
    }

    lemma {:induction false} ClearingTouched(trace: seq<Event<V>>, was: Tree<TreeNode<V>>, t: Tree<TreeNode<V>>,
                                             n: TreeNode<V>)
      requires Clearing(trace, was, t) && n in Items(t)
      ensures n !in ReleasedNodes(trace) && Clearing(trace + [Touched(n)], was, t)
      ensures Untouched(trace) ==> Untouched(trace + [Touched(n)])
    {
      StillLive(trace, was, t, n);
      OrderlyMore(trace, Touched(n));
      ReleasedMore(trace, Touched(n));
    }

    lemma {:induction false} ClearingReleased(trace: seq<Event<V>>, was: Tree<TreeNode<V>>, t: Tree<TreeNode<V>>,
                                              rest: Tree<TreeNode<V>>, n: TreeNode<V>, links: Links<V>)
      requires Clearing(trace, was, t) && n in Items(t) && PostOrder(t) == [n] + PostOrder(rest)
      ensures Clearing(trace + [Released(n, links)], was, rest)
    {
      StillLive(trace, was, t, n);
      OrderlyMore(trace, Released(n, links));
      ReleasedMore(trace, Released(n, links));
    }

    // Gives all nodes back, children before parents.  Nothing is read or written of a node
    // that was given back, and only nodes of the tree are.
    method Clear() returns (ghost trace: seq<Event<V>>)
      requires Valid()
      modifies this, Items(tree)
      ensures Valid() && tree == Leaf
      ensures ReleasedNodes(trace) == PostOrder(old(tree))
      ensures Orderly(trace) && Untouched(trace) && NodesOf(trace) <= old(Items(tree))
    {
      trace := [];
      var n := mRoot;
      if n != null {
        trace := ClearFrom(n);
      }
      mSize := 0;
      mRoot, mFirst, mLast := null, null, null;
      tree := Leaf;
    }

    method ClearFrom(root: TreeNode<V>) returns (ghost trace: seq<Event<V>>)
      requires Shaped() && root == mRoot
      modifies `tree, Items(tree)
      ensures ReleasedNodes(trace) == PostOrder(old(tree))
      ensures Orderly(trace) && Untouched(trace) && NodesOf(trace) <= old(Items(tree))
    {
      ghost var was, all := tree, Items(tree);
      var n := root;
      ghost var p: Path<TreeNode<V>>, t := Top, tree;
      trace := [];
      while true
        invariant Shaped() && t.Node? && n == t.item && tree == Plug(p, t) && LeftEmpty(p)
        invariant Items(tree) <= all && Clearing(trace, was, tree) && Untouched(trace)
        decreases |InOrder(tree)|, t
      {
        LinksAround(p, t, n);
        var left, right, parent;
        ClearingTouched(trace, was, tree, n);
        left, trace := LeftOf(n, trace), Touch(n, trace);
        if left != null {
          p, t := InLeft(p, t.item, t.colour, t.right), t.left;
          n := left;
          continue;
        }
        ClearingTouched(trace, was, tree, n);
        right, trace := RightOf(n, trace), Touch(n, trace);
        if right != null {
          p, t := InRight(t.left, t.item, t.colour, p), t.right;
          n := right;
          continue;
        }
        ClearingTouched(trace, was, tree, n);
        parent, trace := ParentOf(n, trace), Touch(n, trace);
        if parent == null {
          NextReleased(Top, t);
          ClearingReleased(trace, was, t, Leaf, n, LinksOf(n));
          trace := Release(n, trace);
          return;
        }
        n, trace := ReleaseLeaf(n, parent, trace, was, p, t);
        p, t := p.up, Attach(p, Leaf, p.colour);
      }
    }

    lemma {:induction false} LinksAround(p: Path<TreeNode<V>>, t: Tree<TreeNode<V>>, n: TreeNode<V>)
      requires Shaped() && tree == Plug(p, t) && t.Node? && n == t.item
      ensures n.left == Root(t.left) && n.right == Root(t.right) && n.parent == ParentItem(p) && n in Items(tree)
      ensures !p.Top? ==> p.item in Items(tree) && p.item != n && (p.item.left == n <==> p.InLeft?)
    {
      AtSubtree(tree, p, t);
      AtChildren(tree, p, t, n);
      AtParent(tree, p, t, n);
      assert n in Items(t);
      if !p.Top? {
        assert p.item in PathItems(p);
      }
    }

    // Unlinks a node without children from its parent, moves there, and gives the node back.
    method ReleaseLeaf(n: TreeNode<V>, parent: TreeNode<V>, ghost trace: seq<Event<V>>, ghost was: Tree<TreeNode<V>>,
                       ghost p: Path<TreeNode<V>>, ghost t: Tree<TreeNode<V>>)
      returns (up: TreeNode<V>, ghost longer: seq<Event<V>>)
      requires Shaped() && tree == Plug(p, t) && t.Node? && n == t.item && t.left.Leaf? && t.right.Leaf? && LeftEmpty(p)
      requires n.parent == parent && Clearing(trace, was, tree) && Untouched(trace)
      modifies `tree, Items(tree)
      ensures Shaped() && !p.Top? && tree == Plug(p, Leaf) && Items(tree) == old(Items(tree)) - {n}
      ensures up == parent == p.item
      ensures |InOrder(tree)| < |InOrder(old(tree))|
      ensures Clearing(longer, was, tree) && Untouched(longer)
    {
      ghost var full := tree;
      LinksAround(p, t, n);
      longer := UnlinkLeaf(n, parent, trace, was, p, t);
      ClearingTouched(longer, was, full, n);
      var deleteMe := n;
      up, longer := ParentOf(n, longer), Touch(n, longer);
      NextReleased(p, t);
      ClearingReleased(longer, was, full, tree, n, LinksOf(n));
      longer := Release(deleteMe, longer);
    }

    // The parent's link to the node is cleared.
    method UnlinkLeaf(n: TreeNode<V>, parent: TreeNode<V>, ghost trace: seq<Event<V>>, ghost was: Tree<TreeNode<V>>,
                      ghost p: Path<TreeNode<V>>, ghost t: Tree<TreeNode<V>>)
      returns (ghost longer: seq<Event<V>>)
      requires Shaped() && tree == Plug(p, t) && t.Node? && n == t.item && t.left.Leaf? && t.right.Leaf?
      requires n.parent == parent && Clearing(trace, was, tree) && Untouched(trace)
      modifies `tree, Items(tree)
      ensures Shaped() && !p.Top? && tree == Plug(p, Leaf) && Items(tree) == old(Items(tree)) - {n} && parent == p.item
      ensures |InOrder(tree)| < |InOrder(old(tree))| && n.parent == old(n.parent)
      ensures Clearing(longer, was, old(tree)) && Untouched(longer)
    {
      LinksAround(p, t, n);
      var left;
      ClearingTouched(trace, was, tree, parent);
      left, longer := LeftOf(parent, trace), Touch(parent, trace);
      ClearingTouched(longer, was, tree, parent);
      longer := Touch(parent, longer);
      ClearingLive(longer, was, tree);
      DropLeaf(n, parent, n == left, longer, p, t);
    }

    lemma {:induction false} ClearingLive(trace: seq<Event<V>>, was: Tree<TreeNode<V>>, t: Tree<TreeNode<V>>)
      requires Clearing(trace, was, t)
      ensures forall x | x in Items(t) :: x !in ReleasedNodes(trace)
    {
      forall x | x in Items(t) ensures x !in ReleasedNodes(trace) {
        StillLive(trace, was, t, x);
      }
    }

    // Only live nodes are written, so what was given back stays as it was.
    method DropLeaf(n: TreeNode<V>, parent: TreeNode<V>, lefty: bool, ghost trace: seq<Event<V>>,
                    ghost p: Path<TreeNode<V>>, ghost t: Tree<TreeNode<V>>)
      requires Shaped() && tree == Plug(p, t) && t.Node? && n == t.item && t.left.Leaf? && t.right.Leaf?
      requires !p.Top? && parent == p.item && lefty == p.InLeft?
      requires Untouched(trace) && forall x | x in Items(tree) :: x !in ReleasedNodes(trace)
      modifies `tree, Items(tree) - {n}
      ensures Shaped() && tree == Plug(p, Leaf) && Items(tree) == old(Items(tree)) - {n}
      ensures |InOrder(tree)| < |InOrder(old(tree))|
      ensures Untouched(trace)
    {
      AtSubtree(tree, p, t);
      DetachEnd(p, t);
      PlugInOrder(p, t);
      PlugInOrder<TreeNode<V>>(p, Leaf);
      forall e | e in trace && e.Released? ensures e.node !in Items(tree) {
        ReleasedIn(trace, e.node);
      }
      EmptyHole(parent, lefty, p, n, n);
    }
  }

  // A comparison the other way round makes no valid copy of two elements or more.
  lemma {:induction false} FlippedCopyInvalid<K(!new), V>(that: RedBlackTree<K, V>, flipped: (K, K) -> bool)
    requires that.Valid() && |InOrder(that.tree)| >= 2
    requires forall x, y :: flipped(x, y) == that.cmp(y, x)
    ensures !that.SortedBy(flipped, InOrder(that.tree))
  {
    var s := InOrder(that.tree);
    assert that.cmp(that.keyOf(s[0].value), that.keyOf(s[1].value));
    assert !that.cmp(that.keyOf(s[1].value), that.keyOf(s[0].value));
  }

  lemma {:induction false} ItemsInserted<T>(t: Tree<T>, k: nat, x: T)
    requires RedBlack(t) && k <= |InOrder(t)|
    ensures Items(Inserted(t, k, x)) == Items(t) + {x}
  {
    InsertedMeaning(t, k, x);
    var s, s' := InOrder(t), InOrder(Inserted(t, k, x));
    assert s == s[..k] + s[k..];
    forall y | y in Items(Inserted(t, k, x)) ensures y in Items(t) + {x} {
      ItemInOrder(Inserted(t, k, x), y);
      ItemInOrder(t, y);
      assert y in s[..k] || y == x || y in s[k..];
    }
    forall y | y in Items(t) + {x} ensures y in Items(Inserted(t, k, x)) {
      ItemInOrder(Inserted(t, k, x), y);
      ItemInOrder(t, y);
      assert y == x || y in s[..k] || y in s[k..];
    }
  }

  method AddOther<K(!new), V>(t: RedBlackTree<K, V>, v: V)
    requires t.Valid() && !t.Has(InOrder(t.tree), t.keyOf(v))
    modifies t, Items(t.tree)
    ensures t.Valid() && |InOrder(t.tree)| == |InOrder(old(t.tree))| + 1 && fresh(Items(t.tree) - old(Items(t.tree)))
    ensures old(t.tree) == Leaf ==> InOrder(t.tree)[0].value == v
  {
    ghost var was := t.tree;
    var it, inserted;
    ghost var k;
    it, inserted, k := t.Insert(v);
    InsertedMeaning(was, k, it);
    ItemsInserted(was, k, it);
  }

  // Any two values with different keys, and a copy of their container that is not valid.
  method FlippedCopy<K(!new), V>(cmp: (K, K) -> bool, flipped: (K, K) -> bool, key: V -> K, v: V, w: V)
    returns (copy: RedBlackTree<K, V>)
    requires StrictWeakOrder(cmp) && !Equivalent(cmp, key(v), key(w)) && forall x, y :: flipped(x, y) == cmp(y, x)
    ensures !copy.Valid()
  {
    var original := new RedBlackTree<K, V>(cmp, key);
    AddOther(original, v);
    AddOther(original, w);
    FlippedCopyInvalid(original, flipped);
    copy := new RedBlackTree<K, V>.Copy(original, flipped);
  }
}
