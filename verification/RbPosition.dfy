/**
  Positions in a tree: the node with in-order index i, and the null link in gap k.
  Both are unique, which is why different searches end at the same place.
 */
module RbPosition {
  import opened Bytes
  import opened RbTheory
  import opened RbErase

  // ----- the null link of a gap

  // The path to the null link with exactly k items of t before it.
  function GapPath<T>(p: Path<T>, t: Tree<T>, k: nat): Path<T>
    requires k <= |InOrder(t)|
    decreases t
  {
    if t.Leaf? then p
    else if k <= |InOrder(t.left)| then GapPath(InLeft(p, t.item, t.colour, t.right), t.left, k)
    else GapPath(InRight(t.left, t.item, t.colour, p), t.right, k - |InOrder(t.left)| - 1)
  }

  lemma {:induction false} GapPathMeaning<T>(p: Path<T>, t: Tree<T>, k: nat)
    requires k <= |InOrder(t)|
    ensures Plug(GapPath(p, t, k), Leaf) == Plug(p, t)
    ensures |Before(GapPath(p, t, k))| == |Before(p)| + k
    decreases t
  {
    if t.Node? {
      if k <= |InOrder(t.left)| {
        GapPathMeaning(InLeft(p, t.item, t.colour, t.right), t.left, k);
      } else {
        GapPathMeaning(InRight(t.left, t.item, t.colour, p), t.right, k - |InOrder(t.left)| - 1);
      }
    }
  }

  // Going down towards gap k from any place on the way reaches the same link.
  lemma {:induction false} GapThrough<T>(p: Path<T>, t: Tree<T>, k: nat)
    requires |Before(p)| <= k <= |Before(p)| + |InOrder(t)|
    ensures k <= |InOrder(Plug(p, t))|
    ensures GapPath(Top, Plug(p, t), k) == GapPath(p, t, k - |Before(p)|)
    decreases p
  {
    PlugInOrder(p, t);
    if !p.Top? {
      GapThrough(p.up, Attach(p, t, p.colour), k);
    }
  }

  // Each in-order gap owns exactly one null link.
  lemma {:induction false} GapUnique<T>(p: Path<T>)
    ensures |Before(p)| <= |InOrder(Plug(p, Leaf))|
    ensures p == GapPath(Top, Plug(p, Leaf), |Before(p)|)
  {
    GapThrough<T>(p, Leaf, |Before(p)|);
  }

  // ----- the node with a given index

  function NodeAt<T>(p: Path<T>, t: Tree<T>, i: nat): (r: (Path<T>, Tree<T>))
    requires i < |InOrder(t)|
    ensures r.1.Node?
    decreases t
  {
    if i < |InOrder(t.left)| then NodeAt(InLeft(p, t.item, t.colour, t.right), t.left, i)
    else if i == |InOrder(t.left)| then (p, t)
    else NodeAt(InRight(t.left, t.item, t.colour, p), t.right, i - |InOrder(t.left)| - 1)
  }

  function Index<T>(p: Path<T>, s: Tree<T>): nat
    requires s.Node?
  {
    |Before(p)| + |InOrder(s.left)|
  }

  lemma {:induction false} NodeAtMeaning<T>(p: Path<T>, t: Tree<T>, i: nat)
    requires i < |InOrder(t)|
    ensures var (q, s) := NodeAt(p, t, i);
            Plug(q, s) == Plug(p, t) && Index(q, s) == |Before(p)| + i && s.item == InOrder(t)[i]
    decreases t
  {
    if i < |InOrder(t.left)| {
      NodeAtMeaning(InLeft(p, t.item, t.colour, t.right), t.left, i);
    } else if i > |InOrder(t.left)| {
      NodeAtMeaning(InRight(t.left, t.item, t.colour, p), t.right, i - |InOrder(t.left)| - 1);
    }
  }

  lemma {:induction false} NodeThrough<T>(p: Path<T>, t: Tree<T>, i: nat)
    requires |Before(p)| <= i < |Before(p)| + |InOrder(t)|
    ensures i < |InOrder(Plug(p, t))|
    ensures NodeAt(Top, Plug(p, t), i) == NodeAt(p, t, i - |Before(p)|)
    decreases p
  {
    PlugInOrder(p, t);
    if !p.Top? {
      NodeThrough(p.up, Attach(p, t, p.colour), i);
    }
  }

  lemma {:induction false} NodeUnique<T>(p: Path<T>, s: Tree<T>)
    requires s.Node?
    ensures Index(p, s) < |InOrder(Plug(p, s))|
    ensures InOrder(Plug(p, s))[Index(p, s)] == s.item
    ensures (p, s) == NodeAt(Top, Plug(p, s), Index(p, s))
  {
    NodeThrough(p, s, Index(p, s));
    NodeAtMeaning(Top, Plug(p, s), Index(p, s));
  }

  // ----- the two ends of a subtree

  lemma {:induction false} LeftmostMeaning<T>(p: Path<T>, t: Tree<T>)
    requires t.Node?
    ensures var (q, s) := Leftmost(p, t); Plug(q, s) == Plug(p, t) && Index(q, s) == |Before(p)|
    decreases t
  {
    if t.left.Node? {
      LeftmostMeaning(InLeft(p, t.item, t.colour, t.right), t.left);
    }
  }

  lemma {:induction false} RightmostMeaning<T>(p: Path<T>, t: Tree<T>)
    requires t.Node?
    ensures var (q, s) := Rightmost(p, t); Plug(q, s) == Plug(p, t) && Index(q, s) == |Before(p)| + |InOrder(t)| - 1
    decreases t
  {
    if t.right.Node? {
      RightmostMeaning(InRight(t.left, t.item, t.colour, p), t.right);
    }
  }

  // ----- a gap seen from its two neighbours

  // A node without a left child owns the null link of the gap just before it.
  lemma {:induction false} GapBefore<T>(t: Tree<T>, i: nat)
    requires i < |InOrder(t)| && NodeAt(Top, t, i).1.left.Leaf?
    ensures var (q, s) := NodeAt(Top, t, i); var p := InLeft(q, s.item, s.colour, s.right);
            Plug(p, Leaf) == t && |Before(p)| == i
  {
    NodeAtMeaning(Top, t, i);
  }

  // Otherwise the node before it has no right child and owns the link.
  lemma {:induction false} GapAfter<T>(t: Tree<T>, i: nat)
    requires i < |InOrder(t)| && (i + 1 < |InOrder(t)| ==> NodeAt(Top, t, i + 1).1.left.Node?)
    ensures var (q, s) := NodeAt(Top, t, i); var p := InRight(s.left, s.item, s.colour, q);
            s.right.Leaf? && Plug(p, Leaf) == t && |Before(p)| == i + 1
  {
    NodeAtMeaning(Top, t, i);
    if i + 1 < |InOrder(t)| {
      var (q, s) := NodeAt(Top, t, i + 1);
      NodeAtMeaning(Top, t, i + 1);
      var p := InLeft(q, s.item, s.colour, s.right);
      RightmostMeaning(p, s.left);
      NodeUnique(Rightmost(p, s.left).0, Rightmost(p, s.left).1);
    } else {
      RightmostMeaning(Top, t);
      NodeUnique(Rightmost(Top, t).0, Rightmost(Top, t).1);
    }
  }

  // ----- the two updates, by position

  // A red-black tree with x put into gap k.
  function Inserted<T>(t: Tree<T>, k: nat, x: T): Tree<T>
    requires k <= |InOrder(t)|
  {
    if t.Leaf? then Node(Leaf, x, Black, Leaf)
    else InsertFix(GapPath(Top, t, k), Node(Leaf, x, Red, Leaf))
  }

  // A red-black tree without its item i.
  function Removed<T>(t: Tree<T>, i: nat): Tree<T>
    requires RedBlack(t) && i < |InOrder(t)|
  {
    NodeAtMeaning(Top, t, i);
    var (p, d) := NodeAt(Top, t, i);
    Erased(p, d)
  }

  lemma {:induction false} InsertedMeaning<T>(t: Tree<T>, k: nat, x: T)
    requires RedBlack(t) && k <= |InOrder(t)|
    ensures RedBlack(Inserted(t, k, x))
    ensures InOrder(Inserted(t, k, x)) == InOrder(t)[..k] + [x] + InOrder(t)[k..]
  {
    if t.Node? {
      var p := GapPath(Top, t, k);
      GapPathMeaning(Top, t, k);
      FilledGap(t, p, x);
      NewLeafFits(t, p);
      InsertFixInOrder(p, Node(Leaf, x, Red, Leaf));
      InsertFixRedBlack(p, Node(Leaf, x, Red, Leaf));
    }
  }

  lemma {:induction false} NewLeafFits<T>(t: Tree<T>, p: Path<T>)
    requires RedBlack(t) && t.Node? && Plug(p, Leaf) == t
    ensures !p.Top? && PathOk(p, 0)
  {
    PlugRedBlack<T>(p, Leaf);
  }

  lemma {:induction false} FilledGap<T>(t: Tree<T>, p: Path<T>, x: T)
    requires Plug(p, Leaf) == t
    ensures |Before(p)| <= |InOrder(t)|
    ensures InOrder(Plug(p, Node(Leaf, x, Red, Leaf))) == InOrder(t)[..|Before(p)|] + [x] + InOrder(t)[|Before(p)|..]
  {
    PlugInOrder<T>(p, Leaf);
    PlugInOrder(p, Node(Leaf, x, Red, Leaf));
    assert InOrder(t) == Before(p) + After(p);
    assert InOrder<T>(Node(Leaf, x, Red, Leaf)) == [x];
  }

  lemma {:induction false} RemovedMeaning<T>(t: Tree<T>, i: nat)
    requires RedBlack(t) && i < |InOrder(t)|
    ensures RedBlack(Removed(t, i))
    ensures InOrder(Removed(t, i)) == InOrder(t)[..i] + InOrder(t)[i + 1..]
  {
    NodeAtMeaning(Top, t, i);
    var (p, d) := NodeAt(Top, t, i);
    PlugInOrder(p, d);
    ErasedRedBlack(p, d);
    ErasedInOrder(p, d);
    Cut(Before(p), InOrder(d.left), d.item, InOrder(d.right), After(p));
  }

  lemma {:induction false} Cut<T>(b: seq<T>, l: seq<T>, x: T, r: seq<T>, a: seq<T>)
    ensures var s := b + (l + [x] + r) + a; var i := |b| + |l|;
            b + l + r + a == s[..i] + s[i + 1..]
  {
  }

  // Put in and taken out again: the items are as before (the shape need not be).
  lemma {:induction false} InsertThenRemove<T>(t: Tree<T>, k: nat, x: T)
    requires RedBlack(t) && k <= |InOrder(t)|
    ensures RedBlack(Inserted(t, k, x)) && k < |InOrder(Inserted(t, k, x))|
    ensures InOrder(Removed(Inserted(t, k, x), k)) == InOrder(t)
  {
    InsertedMeaning(t, k, x);
    RemovedMeaning(Inserted(t, k, x), k);
  }

  // ----- how deep a red-black tree can be

  function Height<T>(t: Tree<T>): nat {
    if t.Leaf? then 0
    else 1 + (if Height(t.left) > Height(t.right) then Height(t.left) else Height(t.right))
  }

  lemma {:induction false} Pow2Monotone(a: nat, b: nat)
    requires a <= b
    ensures 1 <= Pow2(a) <= Pow2(b)
    decreases b
  {
    if a < b {
      Pow2Monotone(a, b - 1);
    } else if 0 < a {
      Pow2Monotone(a - 1, a - 1);
    }
  }

  lemma {:induction false} BlackHeightBounds<T>(t: Tree<T>)
    requires NoRedRed(t) && EqualBlack(t)
    ensures |InOrder(t)| + 1 >= Pow2(BlackHeight(t))
    ensures Height(t) <= 2 * BlackHeight(t) + (if IsRed(t) then 1 else 0)
  {
    if t.Node? {
      BlackHeightBounds(t.left);
      BlackHeightBounds(t.right);
    }
  }

  // The number of items is at least exponential in half the height.
  lemma {:induction false} HeightBound<T>(t: Tree<T>)
    requires RedBlack(t)
    ensures |InOrder(t)| + 1 >= Pow2((Height(t) + 1) / 2)
  {
    BlackHeightBounds(t);
    Pow2Monotone((Height(t) + 1) / 2, BlackHeight(t));
  }
}
