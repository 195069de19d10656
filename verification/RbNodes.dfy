/**
  Heap nodes, and what it means for their links and colours to represent a tree.
 */
module RbNodes {
  import opened RbTheory

  class TreeNode<V> {
    const value: V
    var left: TreeNode?<V>
    var right: TreeNode?<V>
    var parent: TreeNode?<V>
    var colour: Colour

    constructor (v: V, p: TreeNode?<V>, c: Colour)
      ensures value == v && left == null && right == null && parent == p && colour == c
    {
      value, left, right, parent, colour := v, null, null, p, c;
    }

    // The setters say what happens to the store of any set of nodes around this one.

    method SetColour(c: Colour, ghost nodes: set<TreeNode<V>>)
      requires this in nodes
      modifies `colour
      ensures Snapshot(nodes) == old(Snapshot(nodes)[this := Snapshot(nodes)[this].(colour := c)])
    {
      colour := c;
    }

    method SetParent(p: TreeNode?<V>, ghost nodes: set<TreeNode<V>>)
      requires this in nodes
      modifies `parent
      ensures Snapshot(nodes) == old(Snapshot(nodes)[this := Snapshot(nodes)[this].(parent := p)])
    {
      parent := p;
    }

    method SetLeft(n: TreeNode?<V>, ghost nodes: set<TreeNode<V>>)
      requires this in nodes
      modifies `left
      ensures Snapshot(nodes) == old(Snapshot(nodes)[this := Snapshot(nodes)[this].(left := n)])
    {
      left := n;
    }

    method SetRight(n: TreeNode?<V>, ghost nodes: set<TreeNode<V>>)
      requires this in nodes
      modifies `right
      ensures Snapshot(nodes) == old(Snapshot(nodes)[this := Snapshot(nodes)[this].(right := n)])
    {
      right := n;
    }
  }

  // ----- the nodes of a tree and of a path

  ghost function Items<T>(t: Tree<T>): set<T> {
    if t.Leaf? then {} else Items(t.left) + {t.item} + Items(t.right)
  }

  ghost function PathItems<T>(p: Path<T>): set<T> {
    if p.Top? then {} else {p.item} + Items(Sibling(p)) + PathItems(p.up)
  }

  // No node occurs twice.
  ghost predicate Distinct<T>(t: Tree<T>) {
    t.Leaf? ||
    (t.item !in Items(t.left) && t.item !in Items(t.right) && Items(t.left) !! Items(t.right) &&
     Distinct(t.left) && Distinct(t.right))
  }

  ghost predicate PathDistinct<T>(p: Path<T>) {
    p.Top? ||
    (p.item !in Items(Sibling(p)) && p.item !in PathItems(p.up) &&
     Items(Sibling(p)) !! PathItems(p.up) && Distinct(Sibling(p)) && PathDistinct(p.up))
  }

  ghost predicate Apart<T>(p: Path<T>, t: Tree<T>) {
    Distinct(t) && PathDistinct(p) && Items(t) !! PathItems(p)
  }

  lemma {:induction false} PlugItems<T>(p: Path<T>, t: Tree<T>)
    ensures Items(Plug(p, t)) == Items(t) + PathItems(p)
    ensures Distinct(Plug(p, t)) <==> Apart(p, t)
  {
    if !p.Top? {
      PlugItems(p.up, Attach(p, t, p.colour));
    }
  }

  ghost predicate NoRepeats<T>(s: seq<T>) {
    forall i, j :: 0 <= i < j < |s| ==> s[i] != s[j]
  }

  ghost predicate Disjoint<T>(l: seq<T>, r: seq<T>) {
    forall i, j :: 0 <= i < |l| && 0 <= j < |r| ==> l[i] != r[j]
  }

  lemma {:induction false} NoRepeatsParts<T>(l: seq<T>, x: T, r: seq<T>)
    requires NoRepeats(l + [x] + r)
    ensures NoRepeats(l) && NoRepeats(r) && x !in l && x !in r && Disjoint(l, r)
  {
    var s := l + [x] + r;
    assert forall i :: 0 <= i < |l| ==> s[i] == l[i];
    assert s[|l|] == x;
    forall i, j | 0 <= i < j < |r| ensures r[i] != r[j] {
      assert s[|l| + 1 + i] != s[|l| + 1 + j];
    }
    forall i, j | 0 <= i < |l| && 0 <= j < |r| ensures l[i] != r[j] && r[j] != x {
      assert s[i] != s[|l| + 1 + j] && s[|l|] != s[|l| + 1 + j];
    }
    forall j | 0 <= j < |r| ensures r[j] != x {
      assert s[|l|] != s[|l| + 1 + j];
    }
  }

  lemma {:induction false} NoRepeatsJoined<T>(l: seq<T>, x: T, r: seq<T>)
    requires NoRepeats(l) && NoRepeats(r) && x !in l && x !in r && Disjoint(l, r)
    ensures NoRepeats(l + [x] + r)
  {
  }

  lemma {:induction false} ItemInOrder<T>(t: Tree<T>, x: T)
    ensures x in Items(t) <==> x in InOrder(t)
  {
    if t.Node? {
      ItemInOrder(t.left, x);
      ItemInOrder(t.right, x);
    }
  }

  lemma {:induction false} DistinctInOrder<T>(t: Tree<T>)
    ensures Distinct(t) <==> NoRepeats(InOrder(t))
  {
    if Distinct(t) {
      DistinctNoRepeats(t);
    }
    if NoRepeats(InOrder(t)) {
      NoRepeatsDistinct(t);
    }
  }

  lemma {:induction false} DistinctNoRepeats<T>(t: Tree<T>)
    requires Distinct(t)
    ensures NoRepeats(InOrder(t))
  {
    if t.Node? {
      DistinctNoRepeats(t.left);
      DistinctNoRepeats(t.right);
      ItemInOrder(t.left, t.item);
      ItemInOrder(t.right, t.item);
      var l, r := InOrder(t.left), InOrder(t.right);
      forall i, j | 0 <= i < |l| && 0 <= j < |r| ensures l[i] != r[j] {
        ItemInOrder(t.left, l[i]);
        ItemInOrder(t.right, r[j]);
      }
      NoRepeatsJoined(l, t.item, r);
    }
  }

  lemma {:induction false} NoRepeatsDistinct<T>(t: Tree<T>)
    requires NoRepeats(InOrder(t))
    ensures Distinct(t)
  {
    if t.Node? {
      var l, r := InOrder(t.left), InOrder(t.right);
      NoRepeatsParts(l, t.item, r);
      NoRepeatsDistinct(t.left);
      NoRepeatsDistinct(t.right);
      ItemInOrder(t.left, t.item);
      ItemInOrder(t.right, t.item);
      forall x | x in Items(t.left) ensures x !in Items(t.right) {
        ItemInOrder(t.left, x);
        ItemInOrder(t.right, x);
      }
    }
  }

  // Trees with the same items in the same order are made of the same nodes.
  lemma {:induction false} SameItems<T>(t: Tree<T>, s: Tree<T>)
    requires InOrder(t) == InOrder(s)
    ensures Items(t) == Items(s) && (Distinct(t) <==> Distinct(s))
  {
    forall x | x in Items(t) ensures x in Items(s) {
      ItemInOrder(t, x);
      ItemInOrder(s, x);
    }
    forall x | x in Items(s) ensures x in Items(t) {
      ItemInOrder(t, x);
      ItemInOrder(s, x);
    }
    DistinctInOrder(t);
    DistinctInOrder(s);
  }

  // ----- links and colours

  // The fields of one node.
  datatype Links<V> = Links(left: TreeNode?<V>, right: TreeNode?<V>, parent: TreeNode?<V>, colour: Colour)

  // The fields of all nodes of a set, as one value.
  type Store<V> = map<TreeNode<V>, Links<V>>

  // The value given for other nodes does not depend on the state: equal snapshots of some
  // nodes must say nothing of the rest.
  ghost function Snapshot<V>(nodes: set<TreeNode<V>>): Store<V>
    reads nodes
  {
    map n | n in nodes ::
      if n in nodes then Links(n.left, n.right, n.parent, n.colour) else Links(null, null, null, Red)
  }

  ghost function Root<V>(t: Tree<TreeNode<V>>): (n: TreeNode?<V>)
    ensures n != null <==> t.Node?
  {
    if t.Leaf? then null else t.item
  }

  ghost function ParentItem<V>(p: Path<TreeNode<V>>): TreeNode?<V> {
    if p.Top? then null else p.item
  }

  // In h the nodes of t link to each other as t says, the topmost one to `parent`.
  ghost predicate Linked<V>(h: Store<V>, t: Tree<TreeNode<V>>, parent: TreeNode?<V>) {
    t.Leaf? ||
    (t.item in h && h[t.item] == Links(Root(t.left), Root(t.right), parent, t.colour) &&
     Linked(h, t.left, t.item) && Linked(h, t.right, t.item))
  }

  // The fields of the innermost node of p when the link into the hole is n.
  ghost function AboveHole<V>(p: Path<TreeNode<V>>, n: TreeNode?<V>): Links<V>
    requires !p.Top?
  {
    if p.InLeft? then Links(n, Root(p.right), ParentItem(p.up), p.colour)
    else Links(Root(p.left), n, ParentItem(p.up), p.colour)
  }

  // Everything outside the hole of p is linked as p says; the link into the hole is n.
  ghost predicate PathLinked<V>(h: Store<V>, p: Path<TreeNode<V>>, n: TreeNode?<V>) {
    p.Top? ||
    (p.item in h && h[p.item] == AboveHole(p, n) &&
     Linked(h, Sibling(p), p.item) && PathLinked(h, p.up, p.item))
  }

  lemma {:induction false} PlugLinked<V>(h: Store<V>, p: Path<TreeNode<V>>, t: Tree<TreeNode<V>>)
    ensures Linked(h, Plug(p, t), null) <==> PathLinked(h, p, Root(t)) && Linked(h, t, ParentItem(p))
  {
    if !p.Top? {
      PlugLinked(h, p.up, Attach(p, t, p.colour));
    }
  }

  // ----- what survives a change of the store

  ghost predicate Same<V>(h: Store<V>, h': Store<V>, nodes: set<TreeNode<V>>) {
    forall n :: n in nodes && n in h ==> n in h' && h'[n] == h[n]
  }

  lemma {:induction false} LinkedSame<V>(h: Store<V>, h': Store<V>, t: Tree<TreeNode<V>>, parent: TreeNode?<V>)
    requires Linked(h, t, parent) && Same(h, h', Items(t))
    ensures Linked(h', t, parent)
    decreases t
  {
    if t.Node? {
      LinkedSame(h, h', t.left, t.item);
      LinkedSame(h, h', t.right, t.item);
    }
  }

  // The top of t gets another parent and perhaps another colour.
  lemma {:induction false} Reparented<V>(h: Store<V>, h': Store<V>, t: Tree<TreeNode<V>>, parent: TreeNode?<V>,
                      parent': TreeNode?<V>, colour': Colour)
    requires t.Node? && Distinct(t) && Linked(h, t, parent)
    requires t.item in h' && h'[t.item] == h[t.item].(parent := parent', colour := colour')
    requires Same(h, h', Items(t) - {t.item})
    ensures Linked(h', t.(colour := colour'), parent')
  {
    LinkedSame(h, h', t.left, t.item);
    LinkedSame(h, h', t.right, t.item);
  }

  lemma {:induction false} PathSame<V>(h: Store<V>, h': Store<V>, p: Path<TreeNode<V>>, n: TreeNode?<V>)
    requires PathLinked(h, p, n) && Same(h, h', PathItems(p))
    ensures PathLinked(h', p, n)
    decreases p
  {
    if !p.Top? {
      LinkedSame(h, h', Sibling(p), p.item);
      PathSame(h, h', p.up, p.item);
    }
  }

  // Only the link into the hole changed.
  lemma {:induction false} HoleChanged<V>(h: Store<V>, h': Store<V>, p: Path<TreeNode<V>>, n: TreeNode?<V>,
                                          n': TreeNode?<V>)
    requires PathDistinct(p) && PathLinked(h, p, n)
    requires !p.Top? ==> p.item in h' && h'[p.item] == AboveHole(p, n')
    requires Same(h, h', PathItems(p) - {ParentItem(p)})
    ensures PathLinked(h', p, n')
  {
    if !p.Top? {
      LinkedSame(h, h', Sibling(p), p.item);
      PathSame(h, h', p.up, p.item);
    }
  }

  // A subtree found under `parent` is now found under `parent'`, with nothing else changed.
  ghost predicate Moved<V>(h: Store<V>, h': Store<V>, t: Tree<TreeNode<V>>, parent: TreeNode?<V>, parent': TreeNode?<V>)
  {
    Linked(h, t, parent) &&
    (t.Node? ==> t.item in h' && h'[t.item] == h[t.item].(parent := parent')) &&
    Same(h, h', Items(t) - {Root(t)})
  }

  lemma {:induction false} MovedLinked<V>(h: Store<V>, h': Store<V>, t: Tree<TreeNode<V>>, parent: TreeNode?<V>,
                                          parent': TreeNode?<V>)
    requires Distinct(t) && Moved(h, h', t, parent, parent')
    ensures Linked(h', t, parent')
  {
    if t.Node? {
      Reparented(h, h', t, parent, parent', t.colour);
    }
  }

  // Three nodes linked to each other and to four subtrees that were elsewhere before.
  lemma {:induction false} TripleLinked<V>(h: Store<V>, h': Store<V>, s: Tree<TreeNode<V>>, parent: TreeNode?<V>,
                        pa: TreeNode?<V>, pb: TreeNode?<V>, pc: TreeNode?<V>, pd: TreeNode?<V>)
    requires s.Node? && s.left.Node? && s.right.Node? && Distinct(s)
    requires {s.item, s.left.item, s.right.item} <= h'.Keys
    requires h'[s.item] == Links(s.left.item, s.right.item, parent, s.colour)
    requires h'[s.left.item] == Links(Root(s.left.left), Root(s.left.right), s.item, s.left.colour)
    requires h'[s.right.item] == Links(Root(s.right.left), Root(s.right.right), s.item, s.right.colour)
    requires Moved(h, h', s.left.left, pa, s.left.item) && Moved(h, h', s.left.right, pb, s.left.item)
    requires Moved(h, h', s.right.left, pc, s.right.item) && Moved(h, h', s.right.right, pd, s.right.item)
    ensures Linked(h', s, parent)
  {
    MovedLinked(h, h', s.left.left, pa, s.left.item);
    MovedLinked(h, h', s.left.right, pb, s.left.item);
    MovedLinked(h, h', s.right.left, pc, s.right.item);
    MovedLinked(h, h', s.right.right, pd, s.right.item);
    assert Linked(h', s.left, s.item) && Linked(h', s.right, s.item);
  }
}
