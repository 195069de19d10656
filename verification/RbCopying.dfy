/** Copying a stored tree by walking the original and the copy in step. */
module RbCopying {
  import opened RbTheory
  import opened RbNodes
  import opened RbRelink
  import opened RbWalk

  // Which node is the copy of which.
  type Copies<V> = map<TreeNode<V>, TreeNode<V>>

  ghost predicate CopyOf<V>(f: Copies<V>, o: TreeNode<V>, n: TreeNode<V>) {
    o in f && f[o] == n && n.value == o.value
  }

  // c is t, node for node.
  ghost predicate Copied<V>(f: Copies<V>, t: Tree<TreeNode<V>>, c: Tree<TreeNode<V>>) {
    if t.Leaf? then c.Leaf?
    else
      c.Node? && CopyOf(f, t.item, c.item) && c.colour == t.colour
      && Copied(f, t.left, c.left) && Copied(f, t.right, c.right)
  }

  // The walk is below p in the original and below q in the copy: what lies to the left is
  // copied, what lies to the right is still missing.
  ghost predicate PathCopied<V>(f: Copies<V>, p: Path<TreeNode<V>>, q: Path<TreeNode<V>>) {
    match p
    case Top => q.Top?
    case InLeft(up, x, c, _) =>
      q.InLeft? && CopyOf(f, x, q.item) && q.colour == c && q.right == Leaf
      && PathCopied(f, up, q.up)
    case InRight(l, x, c, up) =>
      q.InRight? && CopyOf(f, x, q.item) && q.colour == c && Copied(f, l, q.left)
      && PathCopied(f, up, q.up)
  }

  // The subtree at the walk: its node is copied, and perhaps its left, and perhaps both sides.
  ghost predicate Partly<V>(f: Copies<V>, s: Tree<TreeNode<V>>, u: Tree<TreeNode<V>>) {
    s.Node? && u.Node? && CopyOf(f, s.item, u.item) && u.colour == s.colour
    && (u.left == Leaf || Copied(f, s.left, u.left))
    && (u.right == Leaf || (Copied(f, s.left, u.left) && Copied(f, s.right, u.right)))
  }

  // The originals that have a copy.
  ghost function PathDone<V>(p: Path<TreeNode<V>>): set<TreeNode<V>> {
    match p
    case Top => {}
    case InLeft(up, x, _, _) => {x} + PathDone(up)
    case InRight(l, x, _, up) => Items(l) + {x} + PathDone(up)
  }

  ghost function Done<V>(p: Path<TreeNode<V>>, s: Tree<TreeNode<V>>, u: Tree<TreeNode<V>>): set<TreeNode<V>>
    requires s.Node? && u.Node?
  {
    PathDone(p) + {s.item} + (if u.left == Leaf then {} else Items(s.left))
    + (if u.right == Leaf then {} else Items(s.right))
  }

  lemma {:induction false} CopiedMore<V>(f: Copies<V>, f': Copies<V>, t: Tree<TreeNode<V>>, c: Tree<TreeNode<V>>)
    requires Copied(f, t, c) && forall x | x in f :: x in f' && f'[x] == f[x]
    ensures Copied(f', t, c)
  {
    if t.Node? {
      CopiedMore(f, f', t.left, c.left);
      CopiedMore(f, f', t.right, c.right);
    }
  }

  lemma {:induction false} PathCopiedMore<V>(f: Copies<V>, f': Copies<V>, p: Path<TreeNode<V>>, q: Path<TreeNode<V>>)
    requires PathCopied(f, p, q) && forall x | x in f :: x in f' && f'[x] == f[x]
    ensures PathCopied(f', p, q)
  {
    if !p.Top? {
      PathCopiedMore(f, f', p.up, q.up);
      if p.InRight? {
        CopiedMore(f, f', p.left, q.left);
      }
    }
  }

  lemma {:induction false} PathDoneItems<V>(p: Path<TreeNode<V>>)
    ensures PathDone(p) <= PathItems(p)
  {
    if !p.Top? {
      PathDoneItems(p.up);
    }
  }

  // The copies stand in the order of the originals.
  lemma {:induction false} CopiedInOrder<V>(f: Copies<V>, t: Tree<TreeNode<V>>, c: Tree<TreeNode<V>>)
    requires Copied(f, t, c)
    ensures |InOrder(c)| == |InOrder(t)| && forall i | 0 <= i < |InOrder(t)| :: CopyOf(f, InOrder(t)[i], InOrder(c)[i])
  {
    if t.Node? {
      CopiedInOrder(f, t.left, c.left);
      CopiedInOrder(f, t.right, c.right);
      var l, r, l', r' := InOrder(t.left), InOrder(t.right), InOrder(c.left), InOrder(c.right);
      forall i | 0 <= i < |InOrder(t)| ensures CopyOf(f, InOrder(t)[i], InOrder(c)[i]) {
        if i > |l| {
          assert InOrder(t)[i] == r[i - |l| - 1] && InOrder(c)[i] == r'[i - |l| - 1];
        } else if i < |l| {
          assert InOrder(t)[i] == l[i] && InOrder(c)[i] == l'[i];
        }
      }
    }
  }

  lemma {:induction false} CopiedRedBlack<V>(f: Copies<V>, t: Tree<TreeNode<V>>, c: Tree<TreeNode<V>>)
    requires Copied(f, t, c)
    ensures BlackHeight(c) == BlackHeight(t) && IsRed(c) == IsRed(t)
    ensures NoRedRed(c) == NoRedRed(t) && EqualBlack(c) == EqualBlack(t) && RedBlack(c) == RedBlack(t)
  {
    if t.Node? {
      CopiedRedBlack(f, t.left, c.left);
      CopiedRedBlack(f, t.right, c.right);
    }
  }

  // ----- the walk

  function Single<T>(n: T, c: Colour): Tree<T> { Node(Leaf, n, c, Leaf) }

  lemma {:induction false} SingleStored<V>(h: Store<V>, h': Store<V>, p: Path<TreeNode<V>>, n: TreeNode<V>, c: Colour)
    requires !p.Top? && Stored(h, Plug(p, Leaf)) && n !in Items(Plug(p, Leaf))
    requires n in h' && h'[n] == Links(null, null, p.item, c)
    requires p.item in h' && h'[p.item] == AboveHole(p, n)
    requires Same(h, h', Items(Plug(p, Leaf)) - {p.item})
    ensures Stored(h', Plug(p, Single(n, c))) && Items(Plug(p, Single(n, c))) == Items(Plug(p, Leaf)) + {n}
    ensures Root(Plug(p, Single(n, c))) == Root(Plug(p, Leaf))
  {
    StoredParts<V>(h, p, Leaf);
    assert Items(Single(n, c)) == {n};
    assert p.item in PathItems(p) && Same(h, h', PathItems(p) - {p.item});
    HoleChanged(h, h', p, null, n);
    assert Linked(h', Single(n, c), p.item) && Distinct(Single(n, c));
    StoredParts(h', p, Single(n, c));
    PlugRootFixed(p, Leaf, Single(n, c));
  }

  // A new node at the null link of q, below its innermost node.
  method AddNode<V>(n: TreeNode<V>, lefty: bool, v: V, colour: Colour, ghost q: Path<TreeNode<V>>,
                    ghost others: set<TreeNode<V>>)
    returns (m: TreeNode<V>)
    requires n !in others
    requires !q.Top? && q.item == n && lefty == q.InLeft? && n in Items(Plug(q, Leaf))
    requires Stored(Snapshot(Items(Plug(q, Leaf))), Plug(q, Leaf))
    modifies n
    ensures fresh(m) && m.value == v && m !in Items(Plug(q, Leaf)) && m !in others
    ensures Snapshot(others) == old(Snapshot(others))
    ensures var done := Plug(q, Single(m, colour));
      Items(done) == Items(Plug(q, Leaf)) + {m} && Root(done) == Root(Plug(q, Leaf))
      && Stored(Snapshot(Items(done)), done)
  {
    ghost var was: Tree<TreeNode<V>> := Plug(q, Leaf);
    ghost var h: Store<V> := Snapshot(Items(was));
    StoredParts<V>(h, q, Leaf);
    m := new TreeNode(v, n, colour);
    ghost var nodes := Items(was) + {m};
    if lefty {
      n.SetLeft(m, nodes);
    } else {
      n.SetRight(m, nodes);
    }
    SingleStored(h, Snapshot(nodes), q, m, colour);
  }

  // Both walks at the same place.
  ghost predicate InStep<V>(f: Copies<V>, p: Path<TreeNode<V>>, s: Tree<TreeNode<V>>, q: Path<TreeNode<V>>,
                            u: Tree<TreeNode<V>>)
  {
    Apart(p, s) && PathCopied(f, p, q) && Partly(f, s, u) && f.Keys == Done(p, s, u)
  }

  lemma {:induction false} DownLeft<V>(f: Copies<V>, p: Path<TreeNode<V>>, s: Tree<TreeNode<V>>, q: Path<TreeNode<V>>,
                                       u: Tree<TreeNode<V>>, m: TreeNode<V>)
    requires InStep(f, p, s, q, u) && s.left.Node? && u.left == Leaf && m.value == s.left.item.value
    ensures s.left.item !in f && u.right == Leaf
    ensures InStep(f[s.left.item := m], InLeft(p, s.item, s.colour, s.right), s.left,
                   InLeft(q, u.item, u.colour, Leaf), Single(m, s.left.colour))
  {
    var f' := f[s.left.item := m];
    PathDoneItems(p);
    assert s.left.item in Items(s.left) && s.left.item in Items(s);
    PathCopiedMore(f, f', p, q);
  }

  lemma {:induction false} DownRight<V>(f: Copies<V>, p: Path<TreeNode<V>>, s: Tree<TreeNode<V>>, q: Path<TreeNode<V>>,
                                        u: Tree<TreeNode<V>>, m: TreeNode<V>)
    requires InStep(f, p, s, q, u) && (s.left == Leaf || u.left != Leaf)
    requires s.right.Node? && u.right == Leaf && m.value == s.right.item.value
    ensures s.right.item !in f
    ensures InStep(f[s.right.item := m], InRight(s.left, s.item, s.colour, p), s.right,
                   InRight(u.left, u.item, u.colour, q), Single(m, s.right.colour))
  {
    var f' := f[s.right.item := m];
    PathDoneItems(p);
    assert s.right.item in Items(s.right) && s.right.item in Items(s);
    PathCopiedMore(f, f', p, q);
    assert Copied(f, s.left, u.left);
    CopiedMore(f, f', s.left, u.left);
  }

  // Nothing below is missing.
  lemma {:induction false} BelowDone<V>(f: Copies<V>, s: Tree<TreeNode<V>>, u: Tree<TreeNode<V>>)
    requires Partly(f, s, u) && (s.left == Leaf || u.left != Leaf) && (s.right == Leaf || u.right != Leaf)
    ensures Copied(f, s, u)
  {
  }

  lemma {:induction false} UpFrom<V>(f: Copies<V>, p: Path<TreeNode<V>>, s: Tree<TreeNode<V>>, q: Path<TreeNode<V>>,
                                     u: Tree<TreeNode<V>>)
    requires InStep(f, p, s, q, u) && Copied(f, s, u)
    ensures p.Top? <==> q.Top?
    ensures p.Top? ==> f.Keys == Items(s)
    ensures !p.Top? ==> InStep(f, p.up, Attach(p, s, p.colour), q.up, Attach(q, u, q.colour))
  {
    assert Done(p, s, u) == PathDone(p) + Items(s);
    if p.InRight? {
      assert q.left == Leaf <==> p.left == Leaf;
    }
  }

  // The node o of a tree and the node n of its copy so far are at the same place.
  ghost predicate Walking<V>(t: Tree<TreeNode<V>>, p: Path<TreeNode<V>>, s: Tree<TreeNode<V>>, o: TreeNode<V>,
                             c: Tree<TreeNode<V>>, q: Path<TreeNode<V>>, u: Tree<TreeNode<V>>, n: TreeNode<V>,
                             f: Copies<V>) {
    Plug(p, s) == t && Root(s) == o && Plug(q, u) == c && Root(u) == n
    && InStep(f, p, s, q, u) && Items(t) !! Items(c) && f.Keys <= Items(t)
  }

  // Both trees are stored, the original as it was.
  ghost predicate BothStored<V>(h: Store<V>, t: Tree<TreeNode<V>>, c: Tree<TreeNode<V>>)
    reads Items(t), Items(c)
  {
    Stored(h, t) && Snapshot(Items(t)) == h && Stored(Snapshot(Items(c)), c)
  }

  lemma {:induction false} DownStep<V>(f: Copies<V>, p: Path<TreeNode<V>>, s: Tree<TreeNode<V>>, q: Path<TreeNode<V>>,
                                       u: Tree<TreeNode<V>>, lefty: bool, m: TreeNode<V>)
    requires InStep(f, p, s, q, u) && Side(s, lefty).Node? && Side(u, lefty) == Leaf
    requires (!lefty ==> s.left == Leaf || u.left != Leaf)
    requires m.value == Side(s, lefty).item.value
    ensures var x := Side(s, lefty);
      x.item !in f && InStep(f[x.item := m], Down(p, s, lefty), x, Down(q, u, lefty), Single(m, x.colour))
    ensures Plug(Down(q, u, lefty), Leaf) == Plug(q, u)
  {
    if lefty {
      DownLeft(f, p, s, q, u, m);
    } else {
      DownRight(f, p, s, q, u, m);
    }
  }

  // What the links say of where the walk is.
  lemma {:induction false} Around<V>(h: Store<V>, t: Tree<TreeNode<V>>, p: Path<TreeNode<V>>, s: Tree<TreeNode<V>>,
                                     o: TreeNode<V>, c: Tree<TreeNode<V>>, q: Path<TreeNode<V>>, u: Tree<TreeNode<V>>,
                                     n: TreeNode<V>, f: Copies<V>)
    requires Walking(t, p, s, o, c, q, u, n, f) && BothStored(h, t, c)
    ensures o.left == Root(s.left) && o.right == Root(s.right) && o.parent == ParentItem(p) && o.colour == s.colour
    ensures n.left == Root(u.left) && n.right == Root(u.right) && n.parent == ParentItem(q)
    ensures n in Items(c) && n !in Items(t)
  {
    AtSubtree(t, p, s);
    AtSubtree(c, q, u);
    AtChildren(t, p, s, o);
    AtChildren(c, q, u, n);
    AtParent(t, p, s, o);
    AtParent(c, q, u, n);
    assert n in Items(u);
  }

  lemma {:induction false} WalkDown<V>(t: Tree<TreeNode<V>>, p: Path<TreeNode<V>>, s: Tree<TreeNode<V>>, o: TreeNode<V>,
                                       c: Tree<TreeNode<V>>, q: Path<TreeNode<V>>, u: Tree<TreeNode<V>>, n: TreeNode<V>,
                                       f: Copies<V>, lefty: bool, m: TreeNode<V>)
    requires Walking(t, p, s, o, c, q, u, n, f)
    requires Side(s, lefty).Node? && Side(u, lefty) == Leaf && (!lefty ==> s.left == Leaf || u.left != Leaf)
    requires m.value == Side(s, lefty).item.value && m !in Items(t)
    requires Items(Plug(Down(q, u, lefty), Single(m, Side(s, lefty).colour))) == Items(c) + {m}
    ensures var x := Side(s, lefty); var u' := Single(m, x.colour);
      x.item !in f && x.item in Items(t)
      && Walking(t, Down(p, s, lefty), x, x.item, Plug(Down(q, u, lefty), u'), Down(q, u, lefty), u', m, f[x.item := m])
  {
    var x := Side(s, lefty);
    DownStep(f, p, s, q, u, lefty, m);
    PlugItems(p, s);
    assert x.item in Items(x) && x.item in Items(s);
  }

  // A child copied that is missing, on either side.
  method CopyChild<V>(o: TreeNode<V>, n: TreeNode<V>, lefty: bool, ghost h: Store<V>, ghost t: Tree<TreeNode<V>>,
                      ghost p: Path<TreeNode<V>>, ghost s: Tree<TreeNode<V>>, ghost c: Tree<TreeNode<V>>,
                      ghost q: Path<TreeNode<V>>, ghost u: Tree<TreeNode<V>>, ghost f: Copies<V>)
    returns (o': TreeNode<V>, n': TreeNode<V>, ghost c': Tree<TreeNode<V>>)
    requires Walking(t, p, s, o, c, q, u, n, f) && BothStored(h, t, c)
    requires if lefty then o.left != null && n.left == null
             else (o.left == null || n.left != null) && o.right != null && n.right == null
    modifies n
    ensures Side(s, lefty).Node?
    ensures var u' := Single(n', Side(s, lefty).colour);
      o' !in f && o' in Items(t)
      && Walking(t, Down(p, s, lefty), Side(s, lefty), o', c', Down(q, u, lefty), u', n', f[o' := n'])
    ensures BothStored(h, t, c') && fresh(n') && Items(c') == Items(c) + {n'} && Root(c') == Root(c)
  {
    Around(h, t, p, s, o, c, q, u, n, f);
    o' := if lefty then o.left else o.right;
    ghost var x, q' := Side(s, lefty), Down(q, u, lefty);
    ChildPlace(h, t, p, s, lefty);
    assert Plug(q', Leaf) == c;
    n' := AddNode(n, lefty, o'.value, o'.colour, q', Items(t));
    c' := Plug(q', Single(n', x.colour));
    WalkDown(t, p, s, o, c, q, u, n, f, lefty, n');
  }

  lemma {:induction false} ChildPlace<V>(h: Store<V>, t: Tree<TreeNode<V>>, p: Path<TreeNode<V>>, s: Tree<TreeNode<V>>,
                                         lefty: bool)
    requires s.Node? && Side(s, lefty).Node? && Plug(p, s) == t && Stored(h, t) && Snapshot(Items(t)) == h
    ensures Side(s, lefty).item.colour == Side(s, lefty).colour
  {
    AtSubtree(t, Down(p, s, lefty), Side(s, lefty));
    AtChildren(t, Down(p, s, lefty), Side(s, lefty), Side(s, lefty).item);
  }

  function Side<T>(s: Tree<T>, lefty: bool): Tree<T>
    requires s.Node?
  {
    if lefty then s.left else s.right
  }

  function Down<T>(p: Path<T>, s: Tree<T>, lefty: bool): Path<T>
    requires s.Node?
  {
    if lefty then InLeft(p, s.item, s.colour, s.right) else InRight(s.left, s.item, s.colour, p)
  }

  lemma {:induction false} WalkUp<V>(t: Tree<TreeNode<V>>, p: Path<TreeNode<V>>, s: Tree<TreeNode<V>>, o: TreeNode<V>,
                                     c: Tree<TreeNode<V>>, q: Path<TreeNode<V>>, u: Tree<TreeNode<V>>, n: TreeNode<V>,
                                     f: Copies<V>)
    requires Walking(t, p, s, o, c, q, u, n, f)
    requires (s.left == Leaf || u.left != Leaf) && (s.right == Leaf || u.right != Leaf)
    ensures p.Top? ==> Copied(f, t, c) && f.Keys == Items(t)
    ensures !p.Top? ==>
      !q.Top? && Walking(t, p.up, Attach(p, s, p.colour), p.item, c, q.up, Attach(q, u, q.colour), q.item, f)
    ensures !p.Top? ==> q.item in Items(c)
  {
    PlugItems(q, u);
    BelowDone(f, s, u);
    UpFrom(f, p, s, q, u);
  }

  // The copy of an end is known, unless the walk is just coming by it.
  ghost predicate Noted<V>(f: Copies<V>, end: TreeNode<V>, end': TreeNode<V>, o: TreeNode<V>) {
    end in f && end != o ==> end' == f[end]
  }

  ghost predicate Known<V>(f: Copies<V>, end: TreeNode<V>, end': TreeNode<V>) {
    end in f ==> end' == f[end]
  }

  lemma {:induction false} NotedMore<V>(f: Copies<V>, end: TreeNode<V>, end': TreeNode<V>, o: TreeNode<V>,
                                        n: TreeNode<V>)
    requires Known(f, end, end') && o !in f
    ensures Noted(f[o := n], end, end', o)
  {
  }

  // One step of both walks: down to a child that is missing, or up.  When there is no way
  // up, everything is copied.
  method Advance<V>(o: TreeNode<V>, n: TreeNode<V>, ghost h: Store<V>, ghost t: Tree<TreeNode<V>>,
                    ghost p: Path<TreeNode<V>>, ghost s: Tree<TreeNode<V>>, ghost c: Tree<TreeNode<V>>,
                    ghost q: Path<TreeNode<V>>, ghost u: Tree<TreeNode<V>>, ghost f: Copies<V>)
    returns (done: bool, o': TreeNode<V>, n': TreeNode<V>, ghost p': Path<TreeNode<V>>, ghost s': Tree<TreeNode<V>>,
             ghost c': Tree<TreeNode<V>>, ghost q': Path<TreeNode<V>>, ghost u': Tree<TreeNode<V>>,
             ghost added: set<TreeNode<V>>)
    requires Walking(t, p, s, o, c, q, u, n, f) && BothStored(h, t, c)
    modifies n
    ensures done ==> Copied(f, t, c) && f.Keys == Items(t) && added == {}
    ensures BothStored(h, t, c') && Root(c') == Root(c) && Items(c') == Items(c) + added && fresh(added)
    ensures done ==> c' == c
    ensures !done ==> n' in Items(c')
    ensures !done && added == {} ==> Walking(t, p', s', o', c', q', u', n', f) && p' < p && o' in f
    ensures !done && added != {} ==> o' !in f && Walking(t, p', s', o', c', q', u', n', f[o' := n']) && o' in Items(t)
  {
    assert Items(c) + {} == Items(c);
    Around(h, t, p, s, o, c, q, u, n, f);
    if o.left != null && n.left == null {
      o', n', c' := CopyChild(o, n, true, h, t, p, s, c, q, u, f);
      done, p', s', q' := false, Down(p, s, true), s.left, Down(q, u, true);
      u', added := Single(n', s.left.colour), {n'};
    } else if o.right != null && n.right == null {
      o', n', c' := CopyChild(o, n, false, h, t, p, s, c, q, u, f);
      done, p', s', q' := false, Down(p, s, false), s.right, Down(q, u, false);
      u', added := Single(n', s.right.colour), {n'};
    } else {
      WalkUp(t, p, s, o, c, q, u, n, f);
      done, o', n', p', s', c', q', u', added := true, o, n, p, s, c, q, u, {};
      if o.parent != null {
        done, o', n' := false, o.parent, n.parent;
        p', s', q', u' := p.up, Attach(p, s, p.colour), q.up, Attach(q, u, q.colour);
      }
    }
  }

  // What is known when both walks are somewhere, or over.
  ghost predicate Underway<V>(done: bool, t: Tree<TreeNode<V>>, p: Path<TreeNode<V>>, s: Tree<TreeNode<V>>,
                              o: TreeNode<V>, c: Tree<TreeNode<V>>, q: Path<TreeNode<V>>, u: Tree<TreeNode<V>>,
                              n: TreeNode<V>, f: Copies<V>, first: TreeNode<V>, first': TreeNode<V>, last: TreeNode<V>,
                              last': TreeNode<V>) {
    if done then Copied(f, t, c) && f.Keys == Items(t) && Known(f, first, first') && Known(f, last, last')
    else Walking(t, p, s, o, c, q, u, n, f) && Noted(f, first, first', o) && Noted(f, last, last', o) && n in Items(c)
  }

  // How many nodes have no copy yet.
  ghost function Missing<V>(t: Tree<TreeNode<V>>, f: Copies<V>): nat {
    |Items(t) - f.Keys|
  }

  lemma {:induction false} FewerMissing<V>(t: Tree<TreeNode<V>>, f: Copies<V>, o: TreeNode<V>, n: TreeNode<V>)
    requires o in Items(t) && o !in f
    ensures Missing(t, f[o := n]) < Missing(t, f)
  {
    assert Items(t) - f[o := n].Keys == Items(t) - f.Keys - {o};
  }

  // The step, with the ends noted when the walk comes by.
  method Step<V>(o: TreeNode<V>, n: TreeNode<V>, first: TreeNode<V>, first0: TreeNode<V>, last: TreeNode<V>,
                 last0: TreeNode<V>, ghost h: Store<V>, ghost t: Tree<TreeNode<V>>, ghost p: Path<TreeNode<V>>,
                 ghost s: Tree<TreeNode<V>>, ghost c: Tree<TreeNode<V>>, ghost q: Path<TreeNode<V>>,
                 ghost u: Tree<TreeNode<V>>, ghost f: Copies<V>)
    returns (done: bool, o': TreeNode<V>, n': TreeNode<V>, first': TreeNode<V>, last': TreeNode<V>,
             ghost p': Path<TreeNode<V>>, ghost s': Tree<TreeNode<V>>, ghost c': Tree<TreeNode<V>>,
             ghost q': Path<TreeNode<V>>, ghost u': Tree<TreeNode<V>>, ghost f': Copies<V>,
             ghost added: set<TreeNode<V>>)
    requires Underway(false, t, p, s, o, c, q, u, n, f, first, first0, last, last0) && BothStored(h, t, c)
    modifies n
    ensures Underway(done, t, p', s', o', c', q', u', n', f', first, first', last, last')
    ensures BothStored(h, t, c') && Root(c') == Root(c) && Items(c') == Items(c) + added && fresh(added)
    ensures !done ==> Missing(t, f') < Missing(t, f) || (Missing(t, f') == Missing(t, f) && p' < p)
  {
    assert f[o] == n;
    first' := if o == first then n else first0;
    last' := if o == last then n else last0;
    assert Known(f, first, first') && Known(f, last, last');
    done, o', n', p', s', c', q', u', added := Advance(o, n, h, t, p, s, c, q, u, f);
    f' := f;
    if !done && added != {} {
      f' := f[o' := n'];
      FewerMissing(t, f, o', n');
      NotedMore(f, first, first', o', n');
      NotedMore(f, last, last', o', n');
    }
  }

  // All nodes copied.
  method CopyNodes<V>(root: TreeNode<V>, first: TreeNode<V>, last: TreeNode<V>, ghost t: Tree<TreeNode<V>>)
    returns (root': TreeNode<V>, first': TreeNode<V>, last': TreeNode<V>, ghost f: Copies<V>,
             ghost c: Tree<TreeNode<V>>)
    requires t.Node? && root == t.item && Stored(Snapshot(Items(t)), t) && {first, last} <= Items(t)
    ensures Copied(f, t, c) && f.Keys == Items(t) && fresh(Items(c))
    ensures Stored(Snapshot(Items(c)), c) && root' == Root(c) && first' == f[first] && last' == f[last]
  {
    ghost var h: Store<V> := Snapshot(Items(t));
    root', c, f := CopyRoot(root, t);
    first', last' := root', root';
    var o: TreeNode<V>, n: TreeNode<V> := root, root';
    ghost var p: Path<TreeNode<V>>, s, q: Path<TreeNode<V>>, u := Top, t, Top, c;
    ghost var copies, added := Items(c), {};
    var done := false;
    while !done
      invariant Underway(done, t, p, s, o, c, q, u, n, f, first, first', last, last')
      invariant BothStored(h, t, c) && root' == Root(c) && Items(c) == copies && fresh(copies)
      decreases !done, Missing(t, f), p
    {
      done, o, n, first', last', p, s, c, q, u, f, added :=
        Step(o, n, first, first', last, last', h, t, p, s, c, q, u, f);
      copies := copies + added;
    }
  }

  method CopyRoot<V>(root: TreeNode<V>, ghost t: Tree<TreeNode<V>>)
    returns (root': TreeNode<V>, ghost c: Tree<TreeNode<V>>, ghost f: Copies<V>)
    requires t.Node? && root == t.item && Stored(Snapshot(Items(t)), t)
    ensures fresh(root') && Items(c) == {root'} && root' == Root(c) && f.Keys == {root}
    ensures Walking(t, Top, t, root, c, Top, c, root', f) && BothStored(old(Snapshot(Items(t))), t, c)
  {
    ghost var h: Store<V> := Snapshot(Items(t));
    AtSubtree<V>(t, Top, t);
    AtChildren<V>(t, Top, t, root);
    root' := new TreeNode(root.value, null, root.colour);
    c, f := Single(root', t.colour), map[root := root'];
    assert Snapshot(Items(t)) == h;
    assert Items(c) == {root'};
    assert root' !in Items(t) && root in Items(t);
    assert Done(Top, t, c) == {root};
    assert Linked(Snapshot(Items(c)), c, null) && Distinct(c);
  }
}
