/**
  Coloured binary trees and their contexts, independent of how nodes are stored.

  A `Tree` is the shape of a red-black tree whose nodes carry items of some type T.
  A `Path` is a tree with one subtree cut out: it lists, from the hole up to the
  root, every ancestor together with the sibling subtree hanging off it.  The
  pointer algorithms of the container move a node variable up and down the tree;
  their loop invariants say `tree == Plug(path, subtree)` for the current node.
 */
module RbTheory {

  datatype Colour = Red | Black

  datatype Tree<T> = Leaf | Node(left: Tree<T>, item: T, colour: Colour, right: Tree<T>)

  datatype Path<T> =
    | Top
    | InLeft(up: Path<T>, item: T, colour: Colour, right: Tree<T>)
    | InRight(left: Tree<T>, item: T, colour: Colour, up: Path<T>)

  // ----- contents

  function InOrder<T>(t: Tree<T>): seq<T> {
    match t
    case Leaf => []
    case Node(l, x, _, r) => InOrder(l) + [x] + InOrder(r)
  }

  // The items left and right of the hole, in order.
  function Before<T>(p: Path<T>): seq<T> {
    match p
    case Top => []
    case InLeft(up, _, _, _) => Before(up)
    case InRight(l, x, _, up) => Before(up) + InOrder(l) + [x]
  }

  function After<T>(p: Path<T>): seq<T> {
    match p
    case Top => []
    case InLeft(up, x, _, r) => [x] + InOrder(r) + After(up)
    case InRight(_, _, _, up) => After(up)
  }

  function Plug<T>(p: Path<T>, t: Tree<T>): Tree<T> {
    match p
    case Top => t
    case InLeft(up, x, c, r) => Plug(up, Node(t, x, c, r))
    case InRight(l, x, c, up) => Plug(up, Node(l, x, c, t))
  }

  lemma {:induction false} PlugInOrder<T>(p: Path<T>, t: Tree<T>)
    ensures InOrder(Plug(p, t)) == Before(p) + InOrder(t) + After(p)
  {
    match p
    case Top =>
    case InLeft(up, x, c, r) =>
      PlugInOrder(up, Node(t, x, c, r));
      ItemMovesRight(Before(up), InOrder(t), x, InOrder(r), After(up));
    case InRight(l, x, c, up) =>
      PlugInOrder(up, Node(l, x, c, t));
      ItemMovesLeft(Before(up), InOrder(l), x, InOrder(t), After(up));
  }

  lemma {:induction false} ItemMovesRight<T>(before: seq<T>, l: seq<T>, x: T, r: seq<T>, after: seq<T>)
    ensures before + (l + [x] + r) + after == before + l + ([x] + r + after)
  {
  }

  lemma {:induction false} ItemMovesLeft<T>(before: seq<T>, l: seq<T>, x: T, r: seq<T>, after: seq<T>)
    ensures before + (l + [x] + r) + after == (before + l + [x]) + r + after
  {
  }

  // ----- the red-black conditions

  predicate IsRed<T>(t: Tree<T>) { t.Node? && t.colour.Red? }

  predicate NoRedRed<T>(t: Tree<T>) {
    t.Leaf? ||
    (NoRedRed(t.left) && NoRedRed(t.right) &&
     (t.colour.Red? ==> !IsRed(t.left) && !IsRed(t.right)))
  }

  function Weight(c: Colour): nat { if c.Black? then 1 else 0 }

  function BlackHeight<T>(t: Tree<T>): nat {
    if t.Leaf? then 0 else Weight(t.colour) + BlackHeight(t.left)
  }

  predicate EqualBlack<T>(t: Tree<T>) {
    t.Leaf? ||
    (EqualBlack(t.left) && EqualBlack(t.right) && BlackHeight(t.left) == BlackHeight(t.right))
  }

  // A subtree that may hang below any black node where black height h is expected.
  predicate Sub<T>(t: Tree<T>, h: nat) {
    NoRedRed(t) && EqualBlack(t) && BlackHeight(t) == h
  }

  predicate RedBlack<T>(t: Tree<T>) {
    !IsRed(t) && NoRedRed(t) && EqualBlack(t)
  }

  // The hole of p is below a black node.
  predicate RedAllowed<T>(p: Path<T>) { !p.Top? && p.colour.Black? }

  function Sibling<T>(p: Path<T>): Tree<T>
    requires !p.Top?
  {
    if p.InLeft? then p.right else p.left
  }

  // Everything outside the hole is right, provided the hole is filled by a tree of
  // black height h.
  predicate PathOk<T>(p: Path<T>, h: nat) {
    p.Top? ||
    (Sub(Sibling(p), h) &&
     (p.colour.Red? ==> !IsRed(Sibling(p)) && RedAllowed(p.up)) &&
     PathOk(p.up, h + Weight(p.colour)))
  }

  // The tree with `t` as the child of the innermost ancestor, that ancestor recoloured.
  function Attach<T>(p: Path<T>, t: Tree<T>, c: Colour): Tree<T>
    requires !p.Top?
  {
    if p.InLeft? then Node(t, p.item, c, p.right) else Node(p.left, p.item, c, t)
  }

  lemma {:induction false} PlugRedBlack<T>(p: Path<T>, t: Tree<T>)
    ensures RedBlack(Plug(p, t)) <==>
            PathOk(p, BlackHeight(t)) && Sub(t, BlackHeight(t)) && (IsRed(t) ==> RedAllowed(p))
  {
    if !p.Top? {
      PlugRedBlack(p.up, Attach(p, t, p.colour));
    }
  }

  // ----- rebalancing after an insertion

  function Blackened<T>(t: Tree<T>): Tree<T> {
    if t.Leaf? then t else t.(colour := Black)
  }

  // The grandparent of the hole, red, over two black children.  The root stays black.
  function PushBlackDown<T>(p: Path<T>, t: Tree<T>): Tree<T>
    requires !p.Top? && !p.up.Top?
  {
    var g := p.up;
    var parent := Attach(p, t, Black);
    var uncle := Blackened(Sibling(g));
    var c := if g.up.Top? then Black else Red;
    if g.InLeft? then Node(parent, g.item, c, uncle) else Node(uncle, g.item, c, parent)
  }

  // Inserted node, parent and grandparent made into one balanced triple.
  function InsertTriple<T>(p: Path<T>, t: Tree<T>): Tree<T>
    requires !p.Top? && !p.up.Top? && t.Node?
  {
    var g := p.up;
    match p
    case InLeft(_, y, _, c) =>
      if g.InLeft? then
        Node(Node(t.left, t.item, Red, t.right), y, Black, Node(c, g.item, Red, g.right))
      else
        Node(Node(g.left, g.item, Red, t.left), t.item, Black, Node(t.right, y, Red, c))
    case InRight(a, y, _, _) =>
      if g.InLeft? then
        Node(Node(a, y, Red, t.left), t.item, Black, Node(t.right, g.item, Red, g.right))
      else
        Node(Node(g.left, g.item, Red, a), y, Black, Node(t.left, t.item, Red, t.right))
  }

  function InsertFix<T>(p: Path<T>, t: Tree<T>): Tree<T>
    requires t.Node?
    decreases p
  {
    if p.Top? then t
    else if p.up.Top? || p.colour.Black? then Plug(p, t)
    else if IsRed(Sibling(p.up)) then InsertFix(p.up.up, PushBlackDown(p, t))
    else Plug(p.up.up, InsertTriple(p, t))
  }

  // A rotation, with any recolouring, leaves the order of the items alone.
  lemma {:induction false} RotateInOrder<T>(a: Tree<T>, x: T, b: Tree<T>, y: T, c: Tree<T>, c0: Colour, c1: Colour,
                                            c2: Colour, c3: Colour)
    ensures InOrder(Node(Node(a, x, c0, b), y, c1, c)) == InOrder(Node(a, x, c2, Node(b, y, c3, c)))
  {
    assert InOrder(Node(a, x, c0, b)) == InOrder(a) + [x] + InOrder(b);
    assert InOrder(Node(b, y, c3, c)) == InOrder(b) + [y] + InOrder(c);
    assert (InOrder(a) + [x] + InOrder(b)) + [y] + InOrder(c)
        == InOrder(a) + [x] + (InOrder(b) + [y] + InOrder(c));
  }

  lemma {:induction false} InsertTripleInOrder<T>(p: Path<T>, t: Tree<T>)
    requires !p.Top? && !p.up.Top? && t.Node?
    ensures InOrder(InsertTriple(p, t)) == InOrder(Attach(p.up, Attach(p, t, p.colour), p.up.colour))
  {
    var g := p.up;
    if p.InLeft? && g.InLeft? {
      RotateInOrder(t, p.item, p.right, g.item, g.right, p.colour, g.colour, Black, Red);
    } else if p.InRight? && g.InRight? {
      RotateInOrder(g.left, g.item, p.left, p.item, t, Red, Black, g.colour, p.colour);
    } else if p.InRight? && g.InLeft? {
      RotateInOrder(p.left, p.item, t.left, t.item, t.right, Red, Black, p.colour, t.colour);
      RotateInOrder(Node(p.left, p.item, Red, t.left), t.item, t.right, g.item, g.right, Black, g.colour, Black, Red);
    } else {
      RotateInOrder(t.left, t.item, t.right, p.item, p.right, t.colour, p.colour, Black, Red);
      RotateInOrder(g.left, g.item, t.left, t.item, Node(t.right, p.item, Red, p.right), Red, Black, g.colour, Black);
    }
  }

  lemma {:induction false} InsertFixInOrder<T>(p: Path<T>, t: Tree<T>)
    requires t.Node?
    ensures InOrder(InsertFix(p, t)) == InOrder(Plug(p, t))
    decreases p
  {
    if !p.Top? && !p.up.Top? && p.colour.Red? {
      var before := Attach(p.up, Attach(p, t, p.colour), p.up.colour);
      PlugInOrder(p.up.up, before);
      if IsRed(Sibling(p.up)) {
        var after := PushBlackDown(p, t);
        assert InOrder(after) == InOrder(before);
        InsertFixInOrder(p.up.up, after);
        PlugInOrder(p.up.up, after);
      } else {
        InsertTripleInOrder(p, t);
        PlugInOrder(p.up.up, InsertTriple(p, t));
      }
    }
  }

  lemma {:induction false} PushBlackDownOk<T>(p: Path<T>, t: Tree<T>)
    requires !p.Top? && !p.up.Top? && p.colour.Red? && IsRed(Sibling(p.up))
    requires Sub(t, BlackHeight(t)) && PathOk(p, BlackHeight(t))
    ensures var s := PushBlackDown(p, t);
            Sub(s, BlackHeight(s)) && PathOk(p.up.up, BlackHeight(s)) && (p.up.up.Top? ==> s.colour.Black?)
  {
    var h := BlackHeight(t);
    var g := p.up;
    assert PathOk(g, h);
    assert Sub(Attach(p, t, Black), h + 1);
    assert Sub(Blackened(Sibling(g)), h + 1);
  }

  lemma {:induction false} InsertTripleOk<T>(p: Path<T>, t: Tree<T>)
    requires !p.Top? && !p.up.Top? && p.colour.Red? && !IsRed(Sibling(p.up))
    requires IsRed(t) && Sub(t, BlackHeight(t)) && PathOk(p, BlackHeight(t))
    ensures var s := InsertTriple(p, t);
            Sub(s, BlackHeight(s)) && PathOk(p.up.up, BlackHeight(s)) && !IsRed(s)
  {
    var h := BlackHeight(t);
    var g := p.up;
    assert PathOk(g, h);
    assert Sub(Sibling(p), h) && Sub(Sibling(g), h);
    assert Sub(t.left, h) && Sub(t.right, h);
    assert g.colour.Black?;
    var s := InsertTriple(p, t);
    assert Sub(s.left, h) && Sub(s.right, h);
  }

  // The one red-red conflict a running insertion may have is at the top of t.
  lemma {:induction false} InsertFixRedBlack<T>(p: Path<T>, t: Tree<T>)
    requires t.Node? && Sub(t, BlackHeight(t)) && PathOk(p, BlackHeight(t))
    requires if p.Top? then t.colour.Black? else t.colour.Red?
    ensures RedBlack(InsertFix(p, t))
    decreases p
  {
    if p.Top? {
    } else if p.up.Top? || p.colour.Black? {
      PlugRedBlack(p, t);
    } else if IsRed(Sibling(p.up)) {
      PushBlackDownOk(p, t);
      InsertFixRedBlack(p.up.up, PushBlackDown(p, t));
    } else {
      InsertTripleOk(p, t);
      PlugRedBlack(p.up.up, InsertTriple(p, t));
    }
  }
}
