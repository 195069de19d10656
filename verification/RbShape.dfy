/** The algorithms look at colours and links only: what the items are makes no difference. */
module RbShape {
  import opened RbTheory
  import opened RbPosition
  import opened RbNodes

  function Mapped<T, U>(f: T -> U, t: Tree<T>): Tree<U> {
    match t
    case Leaf => Leaf
    case Node(l, x, c, r) => Node(Mapped(f, l), f(x), c, Mapped(f, r))
  }

  function MappedPath<T, U>(f: T -> U, p: Path<T>): Path<U> {
    match p
    case Top => Top
    case InLeft(up, x, c, r) => InLeft(MappedPath(f, up), f(x), c, Mapped(f, r))
    case InRight(l, x, c, up) => InRight(Mapped(f, l), f(x), c, MappedPath(f, up))
  }

  // The tree with nothing but its colours and links.
  function Shape<T>(t: Tree<T>): Tree<()> {
    Mapped(_ => (), t)
  }

  // The tree with y in the place of x.
  function Replaced<T(==)>(t: Tree<T>, x: T, y: T): Tree<T> {
    Mapped(z => if z == x then y else z, t)
  }

  lemma {:induction false} MappedSize<T, U>(f: T -> U, t: Tree<T>)
    ensures |InOrder(Mapped(f, t))| == |InOrder(t)|
  {
    if t.Node? {
      MappedSize(f, t.left);
      MappedSize(f, t.right);
    }
  }

  lemma {:induction false} MappedPlug<T, U>(f: T -> U, p: Path<T>, t: Tree<T>)
    ensures Mapped(f, Plug(p, t)) == Plug(MappedPath(f, p), Mapped(f, t))
    decreases p
  {
    if !p.Top? {
      MappedPlug(f, p.up, Attach(p, t, p.colour));
    }
  }

  lemma {:induction false} MappedFix<T, U>(f: T -> U, p: Path<T>, t: Tree<T>)
    requires t.Node?
    ensures Mapped(f, InsertFix(p, t)) == InsertFix(MappedPath(f, p), Mapped(f, t))
    decreases p
  {
    if p.Top? {
    } else if p.up.Top? || p.colour.Black? {
      MappedPlug(f, p, t);
    } else if IsRed(Sibling(p.up)) {
      MappedFix(f, p.up.up, PushBlackDown(p, t));
    } else {
      MappedPlug(f, p.up.up, InsertTriple(p, t));
    }
  }

  lemma {:induction false} MappedGap<T, U>(f: T -> U, p: Path<T>, t: Tree<T>, k: nat)
    requires k <= |InOrder(t)|
    ensures k <= |InOrder(Mapped(f, t))|
    ensures MappedPath(f, GapPath(p, t, k)) == GapPath(MappedPath(f, p), Mapped(f, t), k)
    decreases t
  {
    MappedSize(f, t);
    if t.Node? {
      MappedSize(f, t.left);
      if k <= |InOrder(t.left)| {
        MappedGap(f, InLeft(p, t.item, t.colour, t.right), t.left, k);
      } else {
        MappedGap(f, InRight(t.left, t.item, t.colour, p), t.right, k - |InOrder(t.left)| - 1);
      }
    }
  }

  // Inserting does to the mapped tree what it does to the tree.
  lemma {:induction false} MappedInserted<T, U>(f: T -> U, t: Tree<T>, k: nat, x: T)
    requires k <= |InOrder(t)|
    ensures k <= |InOrder(Mapped(f, t))|
    ensures Mapped(f, Inserted(t, k, x)) == Inserted(Mapped(f, t), k, f(x))
  {
    MappedSize(f, t);
    if t.Node? {
      MappedGap(f, Top, t, k);
      MappedFix(f, GapPath(Top, t, k), Node(Leaf, x, Red, Leaf));
    }
  }

  lemma {:induction false} NothingMapped<T>(f: T -> T, t: Tree<T>)
    requires forall x | x in Items(t) :: f(x) == x
    ensures Mapped(f, t) == t
  {
    if t.Node? {
      NothingMapped(f, t.left);
      NothingMapped(f, t.right);
    }
  }

  // Two new items put into the same gap: the trees differ in that item only.
  lemma {:induction false} InsertedAlike<T>(t: Tree<T>, k: nat, x: T, y: T)
    requires k <= |InOrder(t)| && x !in Items(t)
    ensures Inserted(t, k, y) == Replaced(Inserted(t, k, x), x, y)
    ensures Shape(Inserted(t, k, y)) == Shape(Inserted(t, k, x))
  {
    var f := z => if z == x then y else z;
    MappedInserted(f, t, k, x);
    NothingMapped(f, t);
    MappedInserted(_ => (), t, k, x);
    MappedInserted(_ => (), t, k, y);
  }
}
