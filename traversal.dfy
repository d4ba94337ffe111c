/** Traversals of a subtree: descendants and nodes in preorder, nodes in
    postorder, and the preorder search `find`. */
module Traversal {
  import opened Wrappers
  import opened Ast

  /** `descendants()`: for each child in order, the child and then its own
      descendants. */
  function Descendants(n: Node): seq<Node>
    decreases n, 1
  {
    DescendantsOf(n, Children(n))
  }

  /** The descendants contributed by the child list `cs`; `parent` only
      witnesses termination. */
  function DescendantsOf(parent: Node, cs: seq<Node>): seq<Node>
    requires forall c <- cs :: Below(c, parent)
    decreases parent, 0, |cs|
  {
    if cs == [] then []
    else
      assert cs[0] in cs && Below(cs[0], parent);
      assert forall c <- cs[1..] :: c in cs;
      [cs[0]] + Descendants(cs[0]) + DescendantsOf(parent, cs[1..])
  }

  /** `nodes()`: the node itself, then its descendants (preorder). */
  function Nodes(n: Node): seq<Node>
  {
    [n] + Descendants(n)
  }

  /** `postorder()`: the children's postorders in order, then the node. */
  function Postorder(n: Node): seq<Node>
    decreases n, 1
  {
    PostorderOf(n, Children(n)) + [n]
  }

  function PostorderOf(parent: Node, cs: seq<Node>): seq<Node>
    requires forall c <- cs :: Below(c, parent)
    decreases parent, 0, |cs|
  {
    if cs == [] then []
    else
      assert cs[0] in cs && Below(cs[0], parent);
      assert forall c <- cs[1..] :: c in cs;
      Postorder(cs[0]) + PostorderOf(parent, cs[1..])
  }

  /** Preorder starts with the node itself, followed by its descendants. */
  lemma NodesStartWithSelf(n: Node)
    ensures |Nodes(n)| >= 1 && Nodes(n)[0] == n && Nodes(n)[1..] == Descendants(n)
  {
  }

  /** The descendants of the children `xs + ys` are those of `xs` followed by
      those of `ys`; so a Block's field subtrees precede its input subtrees. */
  lemma {:induction false} DescendantsOfAppend(parent: Node, xs: seq<Node>, ys: seq<Node>)
    requires forall c <- xs :: Below(c, parent)
    requires forall c <- ys :: Below(c, parent)
    ensures DescendantsOf(parent, xs + ys) == DescendantsOf(parent, xs) + DescendantsOf(parent, ys)
    decreases |xs|
  {
    if xs == [] {
      assert xs + ys == ys;
    } else {
      var tail, rest := xs[1..], (xs + ys)[1..];
      assert rest == tail + ys;
      assert forall c <- tail :: c in xs;
      DescendantsOfAppend(parent, tail, ys);
      DescendantsOfCons(parent, xs);
      DescendantsOfCons(parent, xs + ys);
      var first, dt, dy := Nodes(xs[0]), DescendantsOf(parent, tail), DescendantsOf(parent, ys);
      assert (xs + ys)[0] == xs[0];
      assert first + (dt + dy) == (first + dt) + dy;
    }
  }

  /** One step of `DescendantsOf`, for a list given by an expression. */
  lemma DescendantsOfCons(parent: Node, cs: seq<Node>)
    requires cs != [] && forall c <- cs :: Below(c, parent)
    ensures forall c <- cs[1..] :: Below(c, parent)
    ensures DescendantsOf(parent, cs) == Nodes(cs[0]) + DescendantsOf(parent, cs[1..])
  {
    assert forall c <- cs[1..] :: c in cs;
  }

  lemma BlockDescendants(b: Node)
    requires b.Block?
    ensures Descendants(b) == DescendantsOf(b, b.fields) + DescendantsOf(b, b.inputs)
  {
    DescendantsOfAppend(b, b.fields, b.inputs);
  }

  /** Every descendant lies strictly below the node, so a node is never among
      its own descendants. */
  lemma {:induction false} DescendantsBelow(n: Node)
    ensures forall d <- Descendants(n) :: Below(d, n)
    ensures n !in Descendants(n)
    decreases n, 1
  {
    DescendantsOfBelow(n, Children(n));
  }

  lemma {:induction false} DescendantsOfBelow(parent: Node, cs: seq<Node>)
    requires forall c <- cs :: Below(c, parent)
    ensures forall d <- DescendantsOf(parent, cs) :: Below(d, parent)
    decreases parent, 0, |cs|
  {
    if cs != [] {
      assert cs[0] in cs;
      assert forall c <- cs[1..] :: c in cs;
      DescendantsBelow(cs[0]);
      DescendantsOfBelow(parent, cs[1..]);
    }
  }

  /** Every child, and everything in the child's own subtree, is a
      descendant. */
  lemma {:induction false} ChildSubtreesAreDescendants(n: Node)
    ensures forall c <- Children(n) :: forall d <- Nodes(c) :: d in Descendants(n)
  {
    ChildSubtreesOf(n, Children(n));
  }

  lemma {:induction false} ChildSubtreesOf(parent: Node, cs: seq<Node>)
    requires forall c <- cs :: Below(c, parent)
    ensures forall c <- cs :: forall d <- Nodes(c) :: d in DescendantsOf(parent, cs)
    decreases |cs|
  {
    if cs != [] {
      assert cs[0] in cs;
      assert forall c <- cs[1..] :: c in cs;
      ChildSubtreesOf(parent, cs[1..]);
      assert DescendantsOf(parent, cs) == Nodes(cs[0]) + DescendantsOf(parent, cs[1..]);
      assert forall c <- cs :: c == cs[0] || c in cs[1..];
    }
  }

  /** Postorder lists the same nodes as preorder, the same number of times:
      it is a permutation of `nodes()`. */
  lemma {:induction false} PostorderPermutesNodes(n: Node)
    ensures multiset(Postorder(n)) == multiset(Nodes(n))
    ensures |Postorder(n)| == |Nodes(n)|
    decreases n, 1
  {
    PostorderOfPermutes(n, Children(n));
  }

  lemma {:induction false} PostorderOfPermutes(parent: Node, cs: seq<Node>)
    requires forall c <- cs :: Below(c, parent)
    ensures multiset(PostorderOf(parent, cs)) == multiset(DescendantsOf(parent, cs))
    decreases parent, 0, |cs|
  {
    if cs != [] {
      assert cs[0] in cs;
      assert forall c <- cs[1..] :: c in cs;
      PostorderPermutesNodes(cs[0]);
      PostorderOfPermutes(parent, cs[1..]);
    }
  }

  /** Every node in `s` comes after all of its children. */
  ghost predicate ChildrenPrecede(s: seq<Node>)
  {
    forall i, j :: 0 <= i < |s| && 0 <= j < |Children(s[i])| ==> Children(s[i])[j] in s[..i]
  }

  lemma ChildrenPrecedeAppend(xs: seq<Node>, ys: seq<Node>)
    requires ChildrenPrecede(xs) && ChildrenPrecede(ys)
    ensures ChildrenPrecede(xs + ys)
  {
    var s := xs + ys;
    forall i, j | 0 <= i < |s| && 0 <= j < |Children(s[i])| ensures Children(s[i])[j] in s[..i] {
      if i < |xs| {
        assert s[i] == xs[i] && s[..i] == xs[..i];
      } else {
        var k := i - |xs|;
        assert s[i] == ys[k] && s[..i] == xs + ys[..k];
        assert Children(ys[k])[j] in ys[..k];
      }
    }
  }

  /** In postorder every child comes before its parent, and the node itself
      comes last. */
  lemma {:induction false} PostorderChildrenFirst(n: Node)
    ensures ChildrenPrecede(Postorder(n))
    ensures Postorder(n)[|Postorder(n)| - 1] == n
    decreases n, 1
  {
    var cs := Children(n);
    var front := PostorderOf(n, cs);
    PostorderOfChildrenFirst(n, cs);
    var p := Postorder(n);
    assert p == front + [n];
    forall i, j | 0 <= i < |p| && 0 <= j < |Children(p[i])| ensures Children(p[i])[j] in p[..i] {
      if i < |front| {
        assert p[i] == front[i] && p[..i] == front[..i];
      } else {
        assert p[i] == n && p[..i] == front;
        assert cs[j] in cs;
      }
    }
  }

  lemma {:induction false} PostorderOfChildrenFirst(parent: Node, cs: seq<Node>)
    requires forall c <- cs :: Below(c, parent)
    ensures ChildrenPrecede(PostorderOf(parent, cs))
    ensures forall c <- cs :: c in PostorderOf(parent, cs)
    decreases parent, 0, |cs|
  {
    if cs != [] {
      assert cs[0] in cs;
      assert forall c <- cs[1..] :: c in cs;
      PostorderChildrenFirst(cs[0]);
      PostorderOfChildrenFirst(parent, cs[1..]);
      var head := Postorder(cs[0]);
      ChildrenPrecedeAppend(head, PostorderOf(parent, cs[1..]));
      assert head[|head| - 1] == cs[0];
      forall c <- cs ensures c in PostorderOf(parent, cs) {
        if c != cs[0] {
          var k :| 0 <= k < |cs| && cs[k] == c;
          assert c in cs[1..] by { assert cs[1..][k - 1] == c; }
        }
      }
    }
  }

  /** `find(id)`: walk the preorder `nodes()` and return the first node with
      that id, or nothing. */
  method Find(root: Node, id: string) returns (r: Option<Node>)
    ensures r.Some? ==>
      && r.value.id == id
      && exists k :: 0 <= k < |Nodes(root)| && Nodes(root)[k] == r.value
                     && forall j :: 0 <= j < k ==> Nodes(root)[j].id != id
    ensures r.None? <==> forall m <- Nodes(root) :: m.id != id
    ensures root.id == id ==> r == Some(root)
  {
    var nodes := Nodes(root);
    assert nodes[0] == root;
    var i := 0;
    while i < |nodes|
      invariant 0 <= i <= |nodes|
      invariant forall j :: 0 <= j < i ==> nodes[j].id != id
    {
      if nodes[i].id == id {
        return Some(nodes[i]);
      }
      i := i + 1;
    }
    return None;
  }
}
