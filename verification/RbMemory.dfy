/**
  Reading and releasing nodes, with a record of it: what may be said of a traversal that
  gives nodes back while it still walks among them.
 */
module RbMemory {
  import opened RbTheory
  import opened RbNodes

  // A node is read or written, or it is given back with these links in it.
  datatype Event<V> = Touched(node: TreeNode<V>) | Released(node: TreeNode<V>, links: Links<V>)

  ghost function LinksOf<V>(n: TreeNode<V>): Links<V>
    reads n
  {
    Links(n.left, n.right, n.parent, n.colour)
  }

  // The nodes given back, in order.
  ghost function ReleasedNodes<V>(trace: seq<Event<V>>): seq<TreeNode<V>> {
    if trace == [] then [] else
      var before, e := ReleasedNodes(trace[..|trace| - 1]), trace[|trace| - 1];
      if e.Released? then before + [e.node] else before
  }

  // Nothing happens to a node after it was given back.
  ghost predicate Orderly<V>(trace: seq<Event<V>>) {
    forall i, j | 0 <= i < j < |trace| && trace[i].Released? :: trace[j].node != trace[i].node
  }

  ghost function NodesOf<V>(trace: seq<Event<V>>): set<TreeNode<V>> {
    set e | e in trace :: e.node
  }

  // What was given back still is as it was then.
  ghost predicate Untouched<V>(trace: seq<Event<V>>)
    reads NodesOf(trace)
  {
    forall e | e in trace && e.Released? :: e.node in NodesOf(trace) && LinksOf(e.node) == e.links
  }

  lemma {:induction false} ReleasedMore<V>(trace: seq<Event<V>>, e: Event<V>)
    ensures ReleasedNodes(trace + [e]) == ReleasedNodes(trace) + (if e.Released? then [e.node] else [])
  {
    assert (trace + [e])[..|trace|] == trace;
  }

  lemma {:induction false} ReleasedIn<V>(trace: seq<Event<V>>, n: TreeNode<V>)
    ensures n in ReleasedNodes(trace) <==> exists e :: e in trace && e.Released? && e.node == n
    decreases |trace|
  {
    if trace != [] {
      var before, e := trace[..|trace| - 1], trace[|trace| - 1];
      ReleasedIn(before, n);
      assert trace == before + [e];
    }
  }

  lemma {:induction false} OrderlyMore<V>(trace: seq<Event<V>>, e: Event<V>)
    requires Orderly(trace) && e.node !in ReleasedNodes(trace)
    ensures Orderly(trace + [e])
  {
    ReleasedIn(trace, e.node);
    forall i | 0 <= i < |trace| && trace[i].Released? ensures e.node != trace[i].node {
      assert trace[i] in trace;
    }
  }

  // ----- the accesses: only to nodes that were not given back

  function LeftOf<V>(n: TreeNode<V>, ghost trace: seq<Event<V>>): TreeNode?<V>
    requires n !in ReleasedNodes(trace)
    reads n
  {
    n.left
  }

  function RightOf<V>(n: TreeNode<V>, ghost trace: seq<Event<V>>): TreeNode?<V>
    requires n !in ReleasedNodes(trace)
    reads n
  {
    n.right
  }

  function ParentOf<V>(n: TreeNode<V>, ghost trace: seq<Event<V>>): TreeNode?<V>
    requires n !in ReleasedNodes(trace)
    reads n
  {
    n.parent
  }

  // The record of an access, and of destroying the node and giving its memory back.
  ghost function Touch<V>(n: TreeNode<V>, trace: seq<Event<V>>): seq<Event<V>>
    requires n !in ReleasedNodes(trace)
  {
    trace + [Touched(n)]
  }

  ghost function Release<V>(n: TreeNode<V>, trace: seq<Event<V>>): seq<Event<V>>
    requires n !in ReleasedNodes(trace)
    reads n
  {
    trace + [Released(n, LinksOf(n))]
  }

  // ----- the order of release

  ghost function PostOrder<T>(t: Tree<T>): seq<T> {
    if t.Leaf? then [] else PostOrder(t.left) + PostOrder(t.right) + [t.item]
  }

  lemma {:induction false} PostOrderItems<T>(t: Tree<T>, x: T)
    ensures x in PostOrder(t) <==> x in Items(t)
  {
    if t.Node? {
      PostOrderItems(t.left, x);
      PostOrderItems(t.right, x);
    }
  }

  lemma {:induction false} PostOrderOnce<T>(t: Tree<T>)
    requires Distinct(t)
    ensures NoRepeats(PostOrder(t)) && |PostOrder(t)| == |InOrder(t)|
  {
    if t.Node? {
      PostOrderOnce(t.left);
      PostOrderOnce(t.right);
      var l, r := PostOrder(t.left), PostOrder(t.right);
      forall i, j | 0 <= i < |l| && 0 <= j < |r| ensures l[i] != r[j] {
        PostOrderItems(t.left, l[i]);
        PostOrderItems(t.right, r[j]);
      }
      PostOrderItems(t.left, t.item);
      PostOrderItems(t.right, t.item);
    }
  }

  // The nodes released before and after those below the hole.
  ghost function EarlierThan<T>(p: Path<T>): seq<T> {
    match p
    case Top => []
    case InLeft(up, _, _, _) => EarlierThan(up)
    case InRight(l, _, _, up) => EarlierThan(up) + PostOrder(l)
  }

  ghost function LaterThan<T>(p: Path<T>): seq<T> {
    match p
    case Top => []
    case InLeft(up, x, _, r) => PostOrder(r) + [x] + LaterThan(up)
    case InRight(_, x, _, up) => [x] + LaterThan(up)
  }

  lemma {:induction false} PlugPostOrder<T>(p: Path<T>, t: Tree<T>)
    ensures PostOrder(Plug(p, t)) == EarlierThan(p) + PostOrder(t) + LaterThan(p)
  {
    match p
    case Top =>
    case InLeft(up, x, c, r) =>
      PlugPostOrder(up, Node(t, x, c, r));
      ItemLast(EarlierThan(up), PostOrder(t), PostOrder(r), x, LaterThan(up));
    case InRight(l, x, c, up) =>
      PlugPostOrder(up, Node(l, x, c, t));
      ItemLast(EarlierThan(up), PostOrder(l), PostOrder(t), x, LaterThan(up));
  }

  lemma {:induction false} ItemLast<T>(before: seq<T>, l: seq<T>, r: seq<T>, x: T, after: seq<T>)
    ensures before + (l + r + [x]) + after == before + l + (r + [x] + after)
    ensures before + (l + r + [x]) + after == (before + l) + r + ([x] + after)
  {
  }

  // Every node comes after each node of its subtrees.
  lemma {:induction false} ChildrenFirst<T>(p: Path<T>, s: Tree<T>, x: T)
    requires s.Node? && x in Items(s.left) + Items(s.right)
    ensures var r := PostOrder(Plug(p, s)); exists i, j :: 0 <= i < j < |r| && r[i] == x && r[j] == s.item
  {
    PlugPostOrder(p, s);
    PostOrderItems(s.left, x);
    PostOrderItems(s.right, x);
    var below, r := PostOrder(s.left) + PostOrder(s.right), PostOrder(Plug(p, s));
    assert x in below;
    var i :| 0 <= i < |below| && below[i] == x;
    assert r == EarlierThan(p) + below + [s.item] + LaterThan(p);
    assert r[|EarlierThan(p)| + i] == x && r[|EarlierThan(p)| + |below|] == s.item;
  }

  // Everything to the left is gone already.
  ghost predicate LeftEmpty<T>(p: Path<T>) {
    p.Top? || ((p.InRight? ==> p.left == Leaf) && LeftEmpty(p.up))
  }

  // Then a node without children is the next to go.
  lemma {:induction false} NextReleased<T>(p: Path<T>, t: Tree<T>)
    requires LeftEmpty(p) && t.Node? && t.left == Leaf && t.right == Leaf
    ensures PostOrder(Plug(p, t)) == [t.item] + PostOrder(Plug(p, Leaf))
  {
    NothingEarlier(p);
    PlugPostOrder(p, t);
    PlugPostOrder(p, Leaf);
    assert PostOrder(t) == [t.item];
  }

  lemma {:induction false} NothingEarlier<T>(p: Path<T>)
    requires LeftEmpty(p)
    ensures EarlierThan(p) == []
  {
    if !p.Top? {
      NothingEarlier(p.up);
    }
  }
}
