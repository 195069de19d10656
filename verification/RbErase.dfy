/** Taking an item out of a red-black tree: the result tree of every step of the deletion. */
module RbErase {
  import opened RbTheory

  // The rightmost node of t, with its path, when t itself sits at p.
  function Rightmost<T>(p: Path<T>, t: Tree<T>): (r: (Path<T>, Tree<T>))
    requires t.Node?
    ensures r.1.Node? && r.1.right.Leaf?
    decreases t
  {
    if t.right.Leaf? then (p, t) else Rightmost(InRight(t.left, t.item, t.colour, p), t.right)
  }

  function Leftmost<T>(p: Path<T>, t: Tree<T>): (r: (Path<T>, Tree<T>))
    requires t.Node?
    ensures r.1.Node? && r.1.left.Leaf?
    decreases t
  {
    if t.left.Leaf? then (p, t) else Leftmost(InLeft(p, t.item, t.colour, t.right), t.left)
  }

  // The tree at the innermost ancestor when the hole holds t, the sibling has been made
  // red and the ancestor black.
  function SiblingReddened<T>(p: Path<T>, t: Tree<T>): Tree<T>
    requires !p.Top? && Sibling(p).Node?
  {
    if p.InLeft? then Node(t, p.item, Black, p.right.(colour := Red))
    else Node(p.left.(colour := Red), p.item, Black, t)
  }

  // A black sibling with a red child: one balanced triple replaces the innermost ancestor.
  function EraseTriple<T>(p: Path<T>, t: Tree<T>): Tree<T>
    requires !p.Top? && Sibling(p).Node?
    requires IsRed(Sibling(p).right) || IsRed(Sibling(p).left)
  {
    var s := Sibling(p);
    if p.InLeft? then
      if IsRed(s.right) then
        Node(Node(t, p.item, Black, s.left), s.item, p.colour, Blackened(s.right))
      else
        var y := s.left;
        Node(Node(t, p.item, Black, y.left), y.item, p.colour, Node(y.right, s.item, Black, s.right))
    else
      if IsRed(s.right) then
        var y := s.right;
        Node(Node(s.left, s.item, Black, y.left), y.item, p.colour, Node(y.right, p.item, Black, t))
      else
        Node(Blackened(s.left), s.item, p.colour, Node(s.right, p.item, Black, t))
  }

  // A red sibling: rotate it above the innermost ancestor, which turns red.
  function SiblingRaised<T>(p: Path<T>): Path<T>
    requires !p.Top? && Sibling(p).Node?
  {
    var s := Sibling(p);
    if p.InLeft? then InLeft(InLeft(p.up, s.item, Black, s.right), p.item, Red, s.left)
    else InRight(s.right, p.item, Red, InRight(s.left, s.item, Black, p.up))
  }

  function Depth<T>(p: Path<T>): nat {
    if p.Top? then 0 else 1 + Depth(p.up)
  }

  // Cases 1 to 3 shorten the path or finish; case 4 makes the parent red, and a red
  // parent has a black sibling and never passes the missing black on.
  function Pending<T>(p: Path<T>): nat {
    if p.Top? || p.colour.Red? then 0 else Depth(p) + 1
  }

  // The hole of p lacks one black.
  function DoubleBlack<T>(p: Path<T>, t: Tree<T>): Tree<T>
    requires !p.Top? && PathOk(p, BlackHeight(t) + 1)
    decreases Pending(p)
  {
    var s := Sibling(p);
    if s.colour.Black? then
      if IsRed(s.right) || IsRed(s.left) then Plug(p.up, EraseTriple(p, t))
      else if p.colour.Red? then Plug(p.up, SiblingReddened(p, t))
      else if p.up.Top? then SiblingReddened(p, t)
      else
        assert BlackHeight(SiblingReddened(p, t)) == BlackHeight(t) + 1;
        DoubleBlack(p.up, SiblingReddened(p, t))
    else
      DoubleBlack(SiblingRaised(p), t)
  }

  // Takes out an end node of colour c whose only child, if any, is `child`.
  function EraseEnd<T>(p: Path<T>, c: Colour, child: Tree<T>): Tree<T>
    requires c.Black? && child.Leaf? ==> PathOk(p, 1)
  {
    if p.Top? then Blackened(child)
    else if c.Red? then Plug(p, Leaf)
    else if child.Node? then Plug(p, Blackened(child))
    else DoubleBlack(p, Leaf)
  }

  // The node d is an end node of a red-black tree, standing at p.
  predicate EndNode<T>(p: Path<T>, d: Tree<T>) {
    d.Node? && (d.left.Leaf? || d.right.Leaf?) &&
    Sub(d, BlackHeight(d)) && PathOk(p, BlackHeight(d)) && (d.colour.Red? ==> RedAllowed(p))
  }

  function OnlyChild<T>(d: Tree<T>): Tree<T>
    requires d.Node?
  {
    if d.left.Node? then d.left else d.right
  }

  // The node d standing at p, taken out.  An inner node is replaced by its predecessor.
  function Erased<T>(p: Path<T>, d: Tree<T>): Tree<T>
    requires d.Node? && RedBlack(Plug(p, d))
  {
    PlugRedBlack(p, d);
    if d.left.Node? && d.right.Node? then
      var pred := Rightmost(InLeft(p, d.item, d.colour, d.right), d.left).1;
      var q := Rightmost(InLeft(p, pred.item, d.colour, d.right), d.left).0;
      RightmostEndNode(InLeft(p, pred.item, d.colour, d.right), d.left);
      RightmostSameTree(InLeft(p, d.item, d.colour, d.right), InLeft(p, pred.item, d.colour, d.right), d.left);
      EndNodeHeights(q, pred);
      EraseEnd(q, pred.colour, pred.left)
    else
      EndNodeHeights(p, d);
      EraseEnd(p, d.colour, OnlyChild(d))
  }

  lemma {:induction false} RightmostEndNode<T>(p: Path<T>, t: Tree<T>)
    requires t.Node? && Sub(t, BlackHeight(t)) && PathOk(p, BlackHeight(t)) && (IsRed(t) ==> RedAllowed(p))
    ensures var (q, s) := Rightmost(p, t); EndNode(q, s) && !(q.Top? && !p.Top?)
    decreases t
  {
    if t.right.Node? {
      RightmostEndNode(InRight(t.left, t.item, t.colour, p), t.right);
    }
  }

  lemma {:induction false} RightmostSameTree<T>(p: Path<T>, q: Path<T>, t: Tree<T>)
    requires t.Node?
    ensures Rightmost(p, t).1 == Rightmost(q, t).1
    decreases t
  {
    if t.right.Node? {
      RightmostSameTree(InRight(t.left, t.item, t.colour, p), InRight(t.left, t.item, t.colour, q), t.right);
    }
  }

  // What the colours of an end node say about its child.
  lemma {:induction false} EndNodeHeights<T>(p: Path<T>, d: Tree<T>)
    requires EndNode(p, d)
    ensures PathOk(p, Weight(d.colour))
    ensures d.colour.Red? ==> OnlyChild(d).Leaf?
    ensures OnlyChild(d).Node? ==> IsRed(OnlyChild(d)) && Sub(Blackened(OnlyChild(d)), 1)
  {
    assert BlackHeight(d.left) == 0 == BlackHeight(d.right);
    var child := OnlyChild(d);
    if child.Node? {
      assert NoRedRed(child) && EqualBlack(child);
      assert BlackHeight(Blackened(child)) == 1;
    }
  }

  // ----- the result is red-black

  lemma {:induction false} EraseTripleOk<T>(p: Path<T>, t: Tree<T>)
    requires !p.Top? && !IsRed(t) && Sub(t, BlackHeight(t)) && PathOk(p, BlackHeight(t) + 1)
    requires Sibling(p).Node? && Sibling(p).colour.Black?
    requires IsRed(Sibling(p).right) || IsRed(Sibling(p).left)
    ensures var s := EraseTriple(p, t);
            Sub(s, BlackHeight(s)) && PathOk(p.up, BlackHeight(s)) && (IsRed(s) ==> RedAllowed(p.up))
  {
    var h := BlackHeight(t);
    var s := Sibling(p);
    assert Sub(s.left, h) && Sub(s.right, h);
    var n := EraseTriple(p, t);
    assert Sub(n.left, h + 1) && Sub(n.right, h + 1);
  }

  lemma {:induction false} SiblingRaisedOk<T>(p: Path<T>, h: nat)
    requires !p.Top? && PathOk(p, h) && IsRed(Sibling(p))
    ensures PathOk(SiblingRaised(p), h) && RedAllowed(SiblingRaised(p).up)
  {
    var s := Sibling(p);
    assert Sub(s.left, h) && Sub(s.right, h);
    assert p.colour.Black?;
  }

  // The sibling of a subtree that lacks a black is never a null link.
  lemma {:induction false} SiblingIsNode<T>(p: Path<T>, t: Tree<T>)
    requires !p.Top? && PathOk(p, BlackHeight(t) + 1)
    ensures Sibling(p).Node?
  {
  }

  // Case 3: the missing black moves one level up.
  lemma {:induction false} PassUp<T>(p: Path<T>, t: Tree<T>)
    requires !p.Top? && !IsRed(t) && Sub(t, BlackHeight(t)) && PathOk(p, BlackHeight(t) + 1) && p.colour.Black?
    requires Sibling(p).colour.Black? && !IsRed(Sibling(p).left) && !IsRed(Sibling(p).right)
    ensures var s := SiblingReddened(p, t);
            !IsRed(s) && Sub(s, BlackHeight(s)) && PathOk(p.up, BlackHeight(s) + 1) &&
            (p.up.Top? ==> DoubleBlack(p, t) == s) &&
            (!p.up.Top? ==> DoubleBlack(p, t) == DoubleBlack(p.up, s) && Pending(p.up) < Pending(p))
  {
    var s := SiblingReddened(p, t);
    assert Sub(s.left, BlackHeight(t)) && Sub(s.right, BlackHeight(t));
  }

  // Case 4: the black is missing at the same node, now below a red parent.
  lemma {:induction false} RaiseOnce<T>(p: Path<T>, t: Tree<T>)
    requires !p.Top? && PathOk(p, BlackHeight(t) + 1) && IsRed(Sibling(p))
    ensures Sibling(p).left.Node? && Sibling(p).right.Node?
    ensures PathOk(SiblingRaised(p), BlackHeight(t) + 1) && Pending(SiblingRaised(p)) < Pending(p)
    ensures DoubleBlack(p, t) == DoubleBlack(SiblingRaised(p), t)
  {
    SiblingRaisedOk(p, BlackHeight(t) + 1);
  }

  lemma {:induction false} DoubleBlackRedBlack<T>(p: Path<T>, t: Tree<T>)
    requires !p.Top? && !IsRed(t) && Sub(t, BlackHeight(t)) && PathOk(p, BlackHeight(t) + 1)
    ensures RedBlack(DoubleBlack(p, t))
    decreases Pending(p)
  {
    var s := Sibling(p);
    if s.colour.Black? {
      if IsRed(s.right) || IsRed(s.left) {
        EraseTripleOk(p, t);
        PlugRedBlack(p.up, EraseTriple(p, t));
      } else {
        var n := SiblingReddened(p, t);
        assert Sub(n.left, BlackHeight(t)) && Sub(n.right, BlackHeight(t));
        assert Sub(n, BlackHeight(n));
        if p.colour.Red? {
          PlugRedBlack(p.up, n);
        } else if !p.up.Top? {
          DoubleBlackRedBlack(p.up, n);
        }
      }
    } else {
      SiblingRaisedOk(p, BlackHeight(t) + 1);
      DoubleBlackRedBlack(SiblingRaised(p), t);
    }
  }

  lemma {:induction false} EraseEndRedBlack<T>(p: Path<T>, d: Tree<T>)
    requires EndNode(p, d)
    requires d.colour.Black? && OnlyChild(d).Leaf? ==> PathOk(p, 1)
    ensures RedBlack(EraseEnd(p, d.colour, OnlyChild(d)))
  {
    EndNodeHeights(p, d);
    var child := OnlyChild(d);
    if p.Top? {
    } else if d.colour.Red? {
      PlugRedBlack<T>(p, Leaf);
    } else if child.Node? {
      PlugRedBlack(p, Blackened(child));
    } else {
      DoubleBlackRedBlack<T>(p, Leaf);
    }
  }

  lemma {:induction false} ErasedRedBlack<T>(p: Path<T>, d: Tree<T>)
    requires d.Node? && RedBlack(Plug(p, d))
    ensures RedBlack(Erased(p, d))
  {
    PlugRedBlack(p, d);
    if d.left.Node? && d.right.Node? {
      var pred := Rightmost(InLeft(p, d.item, d.colour, d.right), d.left).1;
      var above := InLeft(p, pred.item, d.colour, d.right);
      RightmostEndNode(above, d.left);
      RightmostSameTree(InLeft(p, d.item, d.colour, d.right), above, d.left);
      EndNodeHeights(Rightmost(above, d.left).0, pred);
      EraseEndRedBlack(Rightmost(above, d.left).0, pred);
    } else {
      EndNodeHeights(p, d);
      EraseEndRedBlack(p, d);
    }
  }

  // ----- exactly one item is gone

  lemma {:induction false} EraseTripleInOrder<T>(p: Path<T>, t: Tree<T>)
    requires !p.Top? && Sibling(p).Node?
    requires IsRed(Sibling(p).right) || IsRed(Sibling(p).left)
    ensures InOrder(EraseTriple(p, t)) == InOrder(Attach(p, t, p.colour))
  {
    var s := Sibling(p);
    if p.InLeft? {
      if IsRed(s.right) {
        RotateInOrder(t, p.item, s.left, s.item, s.right, Black, p.colour, p.colour, s.colour);
      } else {
        var y := s.left;
        RotateInOrder(y.left, y.item, y.right, s.item, s.right, y.colour, s.colour, Black, Black);
        RotateInOrder(t, p.item, y.left, y.item, Node(y.right, s.item, Black, s.right),
                      Black, p.colour, p.colour, Black);
      }
    } else {
      if IsRed(s.right) {
        var y := s.right;
        RotateInOrder(s.left, s.item, y.left, y.item, y.right, Black, Black, s.colour, y.colour);
        RotateInOrder(Node(s.left, s.item, Black, y.left), y.item, y.right, p.item, t,
                      Black, p.colour, p.colour, Black);
      } else {
        RotateInOrder(s.left, s.item, s.right, p.item, t, s.colour, p.colour, p.colour, Black);
      }
    }
  }

  lemma {:induction false} SiblingRaisedInOrder<T>(p: Path<T>, t: Tree<T>)
    requires !p.Top? && Sibling(p).Node?
    ensures InOrder(Plug(SiblingRaised(p), t)) == InOrder(Plug(p, t))
  {
    var s := Sibling(p);
    var was := Attach(p, t, p.colour);
    PlugInOrder(p.up, was);
    if p.InLeft? {
      RotateInOrder(t, p.item, s.left, s.item, s.right, Red, Black, p.colour, s.colour);
      PlugInOrder(p.up, Node(Node(t, p.item, Red, s.left), s.item, Black, s.right));
    } else {
      RotateInOrder(s.left, s.item, s.right, p.item, t, s.colour, p.colour, Black, Red);
      PlugInOrder(p.up, Node(s.left, s.item, Black, Node(s.right, p.item, Red, t)));
    }
  }

  lemma {:induction false} DoubleBlackInOrder<T>(p: Path<T>, t: Tree<T>)
    requires !p.Top? && PathOk(p, BlackHeight(t) + 1)
    ensures InOrder(DoubleBlack(p, t)) == InOrder(Plug(p, t))
    decreases Pending(p)
  {
    var s := Sibling(p);
    var was := Attach(p, t, p.colour);
    PlugInOrder(p.up, was);
    if s.colour.Black? {
      if IsRed(s.right) || IsRed(s.left) {
        EraseTripleInOrder(p, t);
        PlugInOrder(p.up, EraseTriple(p, t));
      } else {
        var n := SiblingReddened(p, t);
        assert InOrder(n) == InOrder(was);
        PlugInOrder(p.up, n);
        if p.colour.Black? && !p.up.Top? {
          DoubleBlackInOrder(p.up, n);
        }
      }
    } else {
      SiblingRaisedInOrder(p, t);
      SiblingRaisedOk(p, BlackHeight(t) + 1);
      DoubleBlackInOrder(SiblingRaised(p), t);
    }
  }

  lemma {:induction false} EraseEndInOrder<T>(p: Path<T>, c: Colour, child: Tree<T>)
    requires c.Black? && child.Leaf? ==> PathOk(p, 1)
    requires c.Red? ==> child.Leaf?
    ensures InOrder(EraseEnd(p, c, child)) == Before(p) + InOrder(child) + After(p)
  {
    PlugInOrder(p, child);
    PlugInOrder(p, Blackened(child));
    if !p.Top? && c.Black? && child.Leaf? {
      DoubleBlackInOrder<T>(p, Leaf);
    }
  }

  lemma {:induction false} RightmostInOrder<T>(p: Path<T>, t: Tree<T>)
    requires t.Node?
    ensures var (q, s) := Rightmost(p, t);
            After(q) == After(p) &&
            Before(q) + InOrder(s.left) + [s.item] == Before(p) + InOrder(t)
    decreases t
  {
    if t.right.Node? {
      var p' := InRight(t.left, t.item, t.colour, p);
      RightmostInOrder(p', t.right);
      assert Before(p') + InOrder(t.right) == Before(p) + (InOrder(t.left) + [t.item] + InOrder(t.right));
    } else {
      assert Before(p) + InOrder(t.left) + [t.item] == Before(p) + (InOrder(t.left) + [t.item] + []);
    }
  }

  lemma {:induction false} InnerErasedInOrder<T>(p: Path<T>, d: Tree<T>, pred: Tree<T>, q: Path<T>)
    requires d.Node? && d.left.Node? && pred.Node?
    requires (q, pred) == Rightmost(InLeft(p, pred.item, d.colour, d.right), d.left)
    ensures Before(q) + InOrder(pred.left) + After(q) == Before(p) + InOrder(d.left) + InOrder(d.right) + After(p)
  {
    var above := InLeft(p, pred.item, d.colour, d.right);
    RightmostInOrder(above, d.left);
    var b, m, y := Before(q), InOrder(pred.left), [pred.item];
    var r, a := InOrder(d.right), After(p);
    assert After(q) == y + r + a;
    assert b + m + y == Before(p) + InOrder(d.left);
    Regroup(b, m, y, r, a);
  }

  lemma {:induction false} Regroup<T>(b: seq<T>, m: seq<T>, y: seq<T>, r: seq<T>, a: seq<T>)
    ensures b + m + (y + r + a) == (b + m + y) + r + a
  {
  }

  lemma {:induction false} ErasedInOrder<T>(p: Path<T>, d: Tree<T>)
    requires d.Node? && RedBlack(Plug(p, d))
    ensures InOrder(Erased(p, d)) == Before(p) + InOrder(d.left) + InOrder(d.right) + After(p)
  {
    PlugRedBlack(p, d);
    if d.left.Node? && d.right.Node? {
      InnerErased(p, d);
    } else {
      EndNodeHeights(p, d);
      EraseEndInOrder(p, d.colour, OnlyChild(d));
      OnlyChildInOrder(d);
    }
  }

  lemma {:induction false} InnerErased<T>(p: Path<T>, d: Tree<T>)
    requires d.Node? && d.left.Node? && d.right.Node? && RedBlack(Plug(p, d))
    ensures InOrder(Erased(p, d)) == Before(p) + InOrder(d.left) + InOrder(d.right) + After(p)
  {
    PlugRedBlack(p, d);
    var pred := Rightmost(InLeft(p, d.item, d.colour, d.right), d.left).1;
    var above := InLeft(p, pred.item, d.colour, d.right);
    var q := Rightmost(above, d.left).0;
    RightmostEndNode(above, d.left);
    RightmostSameTree(InLeft(p, d.item, d.colour, d.right), above, d.left);
    EndNodeHeights(q, pred);
    assert OnlyChild(pred) == pred.left;
    EraseEndInOrder(q, pred.colour, pred.left);
    InnerErasedInOrder(p, d, pred, q);
    assert Erased(p, d) == EraseEnd(q, pred.colour, pred.left);
  }

  lemma {:induction false} OnlyChildInOrder<T>(d: Tree<T>)
    requires d.Node? && (d.left.Leaf? || d.right.Leaf?)
    ensures InOrder(OnlyChild(d)) == InOrder(d.left) + InOrder(d.right)
  {
  }
}
