/** The scripting shell's class tree: every class below a root, found by recursion over one flat list. */
module ClassTrees {
  import opened Sequences

  /** A row: the row it hangs under (-1 is the tree's own root) and its class. */
  datatype Node<C> = Node(parent: int, cls: C)

  /** a is reached from c by n steps to the parent. */
  ghost predicate Above<C(!new)>(parents: map<C, C>, a: C, c: C, n: nat) {
    if n == 0 then a == c else c in parents && Above(parents, a, parents[c], n - 1)
  }

  /** The root is not its own ancestor. */
  ghost predicate Rooted<C(!new)>(parents: map<C, C>, root: C) {
    forall n: nat :: n > 0 ==> !Above(parents, root, root, n)
  }

  /** c is n generations below root, through listed classes only. */
  ghost predicate Below<C(!new)>(classes: seq<C>, parents: map<C, C>, root: C, c: C, n: nat) {
    if n == 0 then c == root
    else c in classes && c in parents && Below(classes, parents, root, parents[c], n - 1)
  }

  ghost predicate Descendant<C(!new)>(classes: seq<C>, parents: map<C, C>, root: C, c: C) {
    exists n: nat :: n > 0 && Below(classes, parents, root, c, n)
  }

  /** The chain of classes from the root down to the one being scanned. */
  ghost predicate Chain<C(!new)>(parents: map<C, C>, root: C, path: seq<C>) {
    path != [] && path[0] == root && Distinct(path) &&
    forall i :: 1 <= i < |path| ==> path[i] in parents && parents[path[i]] == path[i - 1]
  }

  ghost function Unvisited<C(!new)>(classes: seq<C>, path: seq<C>): set<C> {
    set c | c in classes && c !in path
  }

  /** Row k stands under a row of its parent class: the starting row, or an earlier new one. */
  ghost predicate Placed<C>(classes: seq<C>, parents: map<C, C>, nodes: seq<Node<C>>, base: nat, at: int, top: C,
                            k: nat)
    requires base <= k < |nodes|
  {
    var node := nodes[k];
    node.cls in classes && node.cls in parents &&
    (if node.parent == at then parents[node.cls] == top
     else base <= node.parent < k && parents[node.cls] == nodes[node.parent].cls)
  }

  /** Row p has a row for each listed class whose parent is c. */
  ghost predicate Filled<C>(classes: seq<C>, parents: map<C, C>, nodes: seq<Node<C>>, base: nat, p: int, c: C)
    requires base <= |nodes|
  {
    forall j :: 0 <= j < |classes| && classes[j] in parents && parents[classes[j]] == c ==>
                  Node(p, classes[j]) in nodes[base..]
  }

  /** The rows of one parent stand in the order of the list. */
  ghost predicate Ordered<C>(classes: seq<C>, nodes: seq<Node<C>>, base: nat) {
    forall k, l, i, j :: base <= k < l < |nodes| && 0 <= i < |classes| && 0 <= j < |classes| ==>
      nodes[k].parent == nodes[l].parent && classes[i] == nodes[k].cls && classes[j] == nodes[l].cls ==>
      i < j
  }

  /** The new rows, from base on, are exactly the subtree of top under row at. */
  ghost predicate Subtree<C>(classes: seq<C>, parents: map<C, C>, nodes: seq<Node<C>>, base: nat, at: int, top: C)
    requires base <= |nodes|
  {
    (forall k :: base <= k < |nodes| ==> Placed(classes, parents, nodes, base, at, top, k)) &&
    Filled(classes, parents, nodes, base, at, top) &&
    (forall k :: base <= k < |nodes| ==> Filled(classes, parents, nodes, base, k, nodes[k].cls)) &&
    Ordered(classes, nodes, base)
  }

  class Tree<C(!new, ==)> {
    var nodes: seq<Node<C>>

    constructor ()
      ensures nodes == []
    {
      nodes := [];
    }

    method AddChild(parent: int, cls: C) returns (node: nat)
      modifies this
      ensures node == |old(nodes)| && nodes == old(nodes) + [Node(parent, cls)]
    {
      node := |nodes|;
      nodes := nodes + [Node(parent, cls)];
    }

    /** Adds the rows of all classes below parent; path is the chain of calls under way. */
    method ScanSubclasses(classes: seq<C>, parents: map<C, C>, at: int, parent: C, ghost root: C, ghost path: seq<C>)
      requires Distinct(classes) && Rooted(parents, root)
      requires Chain(parents, root, path) && path[|path| - 1] == parent
      requires at < |nodes|
      modifies this
      ensures |old(nodes)| <= |nodes| && nodes[..|old(nodes)|] == old(nodes)
      ensures Subtree(classes, parents, nodes, |old(nodes)|, at, parent)
      decreases |Unvisited(classes, path)|
    {
      hide Placed, Ordered, Rooted, Unvisited, Distinct;
      ghost var base := |nodes|;
      NothingScanned(classes, parents, nodes, at, parent);
      for i := 0 to |classes|
        invariant base <= |nodes| && nodes[..base] == old(nodes)
        invariant Scanned(classes, parents, nodes, base, at, parent, i)
      {
        if classes[i] !in parents || parents[classes[i]] != parent { continue; }
        ghost var was := nodes;
        NotOnChain(parents, root, path, classes[i]);
        ChainGrows(classes, parents, root, path, classes[i]);
        var node := AddChild(at, classes[i]);
        ScanSubclasses(classes, parents, node, classes[i], root, path + [classes[i]]);
        assert nodes[..|was|] == was;
        ScanStep(classes, parents, was, nodes, base, at, parent, i);
      }
    }

    /** The cleared tree, filled by hierarchy, for a list of classes in the order to show them in. */
    method RefreshByHierarchy(classes: seq<C>, parents: map<C, C>, root: C)
      requires Distinct(classes) && Rooted(parents, root)
      modifies this
      ensures Subtree(classes, parents, nodes, 0, -1, root)
    {
      nodes := [];
      ScanSubclasses(classes, parents, -1, root, root, [root]);
    }
  }

  /** The loop's state before class i: as Subtree, with the children of the top placed only up to i. */
  ghost predicate Scanned<C>(classes: seq<C>, parents: map<C, C>, nodes: seq<Node<C>>, base: nat, at: int, top: C,
                             i: nat)
    requires base <= |nodes| && i <= |classes|
  {
    (forall k :: base <= k < |nodes| ==> Placed(classes, parents, nodes, base, at, top, k)) &&
    (forall j :: 0 <= j < i && classes[j] in parents && parents[classes[j]] == top ==>
                   Node(at, classes[j]) in nodes[base..]) &&
    (forall k :: base <= k < |nodes| ==> Filled(classes, parents, nodes, base, k, nodes[k].cls)) &&
    Ordered(classes, nodes, base) &&
    forall k :: base <= k < |nodes| && nodes[k].parent == at ==> nodes[k].cls in classes[..i]
  }

  lemma NothingScanned<C>(classes: seq<C>, parents: map<C, C>, nodes: seq<Node<C>>, at: int, top: C)
    ensures Scanned(classes, parents, nodes, |nodes|, at, top, 0)
  {
  }

  lemma {:induction false} ChainClimbs<C(!new)>(parents: map<C, C>, root: C, path: seq<C>)
    requires Chain(parents, root, path)
    ensures Above(parents, root, path[|path| - 1], |path| - 1)
  {
    if |path| > 1 {
      ChainClimbs(parents, root, path[..|path| - 1]);
    }
  }

  /** The recursion never meets a class it is already inside. */
  lemma NotOnChain<C(!new)>(parents: map<C, C>, root: C, path: seq<C>, c: C)
    requires Rooted(parents, root) && Chain(parents, root, path)
    requires c in parents && parents[c] == path[|path| - 1]
    ensures c !in path
  {
    ChainClimbs(parents, root, path);
    assert Above(parents, root, c, |path|);
    var last := path[|path| - 1];
    assert forall i :: 0 <= i < |path| - 1 ==> path[i] != last;
    forall i | 0 <= i < |path| ensures path[i] != c {
      if i > 0 {
        assert parents[path[i]] == path[i - 1];
      }
    }
  }

  lemma ChainGrows<C(!new)>(classes: seq<C>, parents: map<C, C>, root: C, path: seq<C>, c: C)
    requires Chain(parents, root, path) && c in classes && c !in path
    requires c in parents && parents[c] == path[|path| - 1]
    ensures Chain(parents, root, path + [c]) && |Unvisited(classes, path + [c])| < |Unvisited(classes, path)|
  {
    assert Unvisited(classes, path + [c]) == Unvisited(classes, path) - {c};
  }

  /** Adding one child with its own subtree keeps the loop's state. */
  lemma ScanStep<C>(classes: seq<C>, parents: map<C, C>, was: seq<Node<C>>, nodes: seq<Node<C>>, base: nat,
                    at: int, top: C, i: nat)
    requires base <= |was| < |nodes| && i < |classes| && at < base && Distinct(classes)
    requires nodes[..|was|] == was && nodes[|was|] == Node(at, classes[i])
    requires classes[i] in parents && parents[classes[i]] == top
    requires Scanned(classes, parents, was, base, at, top, i)
    requires Subtree(classes, parents, nodes, |was| + 1, |was|, classes[i])
    ensures Scanned(classes, parents, nodes, base, at, top, i + 1)
  {
    hide Placed, Filled, Ordered, Subtree, Distinct;
    ScanPlaced(classes, parents, was, nodes, base, at, top, i);
    ScanFilled(classes, parents, was, nodes, base, at, top, i);
    ScanOrdered(classes, parents, was, nodes, base, at, top, i);
    ScanChildren(was, nodes, base, Node(at, classes[i]));
  }

  /** The rows that were there still are, and the new one is. */
  lemma ScanChildren<C>(was: seq<Node<C>>, nodes: seq<Node<C>>, base: nat, node: Node<C>)
    requires base <= |was| < |nodes| && nodes[..|was|] == was && nodes[|was|] == node
    ensures node in nodes[base..] && forall m :: m in was[base..] ==> m in nodes[base..]
  {
    assert nodes[base..][|was| - base] == node;
    assert nodes[base..] == was[base..] + nodes[|was|..];
  }

  lemma ScanPlaced<C>(classes: seq<C>, parents: map<C, C>, was: seq<Node<C>>, nodes: seq<Node<C>>, base: nat,
                      at: int, top: C, i: nat)
    requires base <= |was| < |nodes| && i < |classes| && at < base && Distinct(classes)
    requires nodes[..|was|] == was && nodes[|was|] == Node(at, classes[i])
    requires classes[i] in parents && parents[classes[i]] == top
    requires Scanned(classes, parents, was, base, at, top, i)
    requires Subtree(classes, parents, nodes, |was| + 1, |was|, classes[i])
    ensures forall k :: base <= k < |nodes| ==> Placed(classes, parents, nodes, base, at, top, k)
    ensures forall k :: base <= k < |nodes| && nodes[k].parent == at ==> nodes[k].cls in classes[..i + 1]
  {
    var n := |was|;
    hide Filled, Ordered;
    forall k | base <= k < |nodes|
      ensures Placed(classes, parents, nodes, base, at, top, k)
      ensures nodes[k].parent == at ==> nodes[k].cls in classes[..i + 1]
    {
      if k < n {
        assert Placed(classes, parents, was, base, at, top, k);
        assert was[k] == nodes[k];
      } else if k > n {
        assert Placed(classes, parents, nodes, n + 1, n, classes[i], k);
      } else {
        assert classes[..i + 1][i] == classes[i];
      }
    }
  }

  lemma ScanFilled<C>(classes: seq<C>, parents: map<C, C>, was: seq<Node<C>>, nodes: seq<Node<C>>, base: nat,
                      at: int, top: C, i: nat)
    requires base <= |was| < |nodes| && i < |classes| && at < base && Distinct(classes)
    requires nodes[..|was|] == was && nodes[|was|] == Node(at, classes[i])
    requires Scanned(classes, parents, was, base, at, top, i)
    requires Subtree(classes, parents, nodes, |was| + 1, |was|, classes[i])
    ensures forall k :: base <= k < |nodes| ==> Filled(classes, parents, nodes, base, k, nodes[k].cls)
  {
    var n := |was|;
    hide Placed, Ordered;
    assert nodes[base..] == was[base..] + ([nodes[n]] + nodes[n + 1..]);
    forall k | base <= k < |nodes| ensures Filled(classes, parents, nodes, base, k, nodes[k].cls) {
      if k < n {
        assert Filled(classes, parents, was, base, k, was[k].cls);
      } else {
        assert Filled(classes, parents, nodes, n + 1, k, nodes[k].cls);
      }
    }
  }

  lemma ScanOrdered<C>(classes: seq<C>, parents: map<C, C>, was: seq<Node<C>>, nodes: seq<Node<C>>, base: nat,
                       at: int, top: C, i: nat)
    requires base <= |was| < |nodes| && i < |classes| && at < base && Distinct(classes)
    requires nodes[..|was|] == was && nodes[|was|] == Node(at, classes[i])
    requires Scanned(classes, parents, was, base, at, top, i)
    requires Subtree(classes, parents, nodes, |was| + 1, |was|, classes[i])
    ensures Ordered(classes, nodes, base)
  {
    var n := |was|;
    assert forall k :: base <= k < n ==> was[k] == nodes[k];
    forall k, l, x, y | base <= k < l < |nodes| && nodes[k].parent == nodes[l].parent &&
                        0 <= x < |classes| && 0 <= y < |classes| && classes[x] == nodes[k].cls &&
                          classes[y] == nodes[l].cls
      ensures x < y
    {
      if k < n {
        assert Placed(classes, parents, was, base, at, top, k);
      }
      if l > n {
        assert Placed(classes, parents, nodes, n + 1, n, classes[i], l);
      }
      if k > n {
        assert Placed(classes, parents, nodes, n + 1, n, classes[i], k);
      } else if l == n {
        assert nodes[k].cls in classes[..i];
        var j :| 0 <= j < i && classes[j] == nodes[k].cls;
      }
    }
  }

  /** Each row's class is a descendant of the root. */
  lemma {:induction false} RowDescends<C(!new)>(classes: seq<C>, parents: map<C, C>, nodes: seq<Node<C>>, at: int,
                                                root: C, k: nat) returns (n: nat)
    requires Subtree(classes, parents, nodes, 0, at, root) && at < 0 && k < |nodes|
    ensures n > 0 && Below(classes, parents, root, nodes[k].cls, n)
  {
    assert Placed(classes, parents, nodes, 0, at, root, k);
    if nodes[k].parent == at {
      n := 1;
      assert Below(classes, parents, root, root, 0);
    } else {
      n := RowDescends(classes, parents, nodes, at, root, nodes[k].parent);
      n := n + 1;
    }
  }

  /** Each descendant has a row. */
  lemma {:induction false} DescendantHasRow<C(!new)>(classes: seq<C>, parents: map<C, C>, nodes: seq<Node<C>>,
                                                     at: int, root: C, c: C, n: nat) returns (k: nat)
    requires Subtree(classes, parents, nodes, 0, at, root) && n > 0 && Below(classes, parents, root, c, n)
    ensures k < |nodes| && nodes[k].cls == c
  {
    var p := at;
    if n > 1 {
      p := DescendantHasRow(classes, parents, nodes, at, root, parents[c], n - 1);
      assert Filled(classes, parents, nodes, 0, p, nodes[p].cls);
    } else {
      assert Below(classes, parents, root, parents[c], 0);
    }
    var j :| 0 <= j < |classes| && classes[j] == c;
    assert Node(p, classes[j]) in nodes[0..];
    k :| 0 <= k < |nodes| && nodes[k] == Node(p, c);
  }

  lemma {:induction false} BelowIsAbove<C(!new)>(classes: seq<C>, parents: map<C, C>, root: C, c: C, n: nat)
    requires Below(classes, parents, root, c, n)
    ensures Above(parents, root, c, n)
  {
    if n > 0 {
      BelowIsAbove(classes, parents, root, parents[c], n - 1);
    }
  }

  /** No class has two rows. */
  lemma {:induction false} RowsDiffer<C(!new)>(classes: seq<C>, parents: map<C, C>, nodes: seq<Node<C>>, at: int,
                                               root: C, k: nat, l: nat)
    requires Rooted(parents, root)
    requires Subtree(classes, parents, nodes, 0, at, root) && at < 0 && k < l < |nodes|
    ensures nodes[k].cls != nodes[l].cls
    decreases k + l
  {
    assert Placed(classes, parents, nodes, 0, at, root, k);
    assert Placed(classes, parents, nodes, 0, at, root, l);
    if nodes[k].cls == nodes[l].cls {
      var p, q := nodes[k].parent, nodes[l].parent;
      if p == q {
        assert false;
      } else if p == at || q == at {
        var r := if p == at then q else p;
        var n := RowDescends(classes, parents, nodes, at, root, r);
        BelowIsAbove(classes, parents, root, root, n);
        assert false;
      } else if p < q {
        RowsDiffer(classes, parents, nodes, at, root, p, q);
      } else {
        RowsDiffer(classes, parents, nodes, at, root, q, p);
      }
    }
  }

  ghost predicate UnderParent<C>(parents: map<C, C>, nodes: seq<Node<C>>, root: C, k: nat)
    requires k < |nodes|
  {
    var Node(p, c) := nodes[k];
    c in parents && if p == -1 then parents[c] == root else 0 <= p < k && parents[c] == nodes[p].cls
  }

  /**
   * The rows of the finished tree: exactly the proper descendants of the root, each exactly once, each under the
   * row of its own parent, siblings in list order.
   */
  lemma TreeIsHierarchy<C(!new)>(classes: seq<C>, parents: map<C, C>, nodes: seq<Node<C>>, root: C)
    requires Rooted(parents, root) && Subtree(classes, parents, nodes, 0, -1, root)
    ensures forall c :: Descendant(classes, parents, root, c) <==> exists k :: 0 <= k < |nodes| && nodes[k].cls == c
    ensures forall k, l :: 0 <= k < l < |nodes| ==> nodes[k].cls != nodes[l].cls
    ensures forall k :: 0 <= k < |nodes| ==> UnderParent(parents, nodes, root, k)
    ensures Ordered(classes, nodes, 0)
  {
    forall c ensures Descendant(classes, parents, root, c) <==> exists k :: 0 <= k < |nodes| && nodes[k].cls == c {
      if Descendant(classes, parents, root, c) {
        var n: nat :| n > 0 && Below(classes, parents, root, c, n);
        var k := DescendantHasRow(classes, parents, nodes, -1, root, c, n);
      }
      if k: nat :| k < |nodes| && nodes[k].cls == c {
        var n := RowDescends(classes, parents, nodes, -1, root, k);
      }
    }
    forall k, l | 0 <= k < l < |nodes| ensures nodes[k].cls != nodes[l].cls {
      RowsDiffer(classes, parents, nodes, -1, root, k, l);
    }
    forall k | 0 <= k < |nodes| ensures UnderParent(parents, nodes, root, k) {
      assert Placed(classes, parents, nodes, 0, -1, root, k);
    }
  }
}
