/** The abstract syntax tree of a block-based program: a closed set of node
    variants, their children, and the height of a subtree. */
module Ast {
  import opened Wrappers
  import opened Categories

  /** A node of the tree. `id` identifies the node; the other arguments are
      the variant's own attributes and its children.
      - `Program`: the top-level nodes, in execution order.
      - `Sequence`: a run of blocks, in execution order.
      - `Block`: an opcode, its fields and inputs (each kept sorted by name,
        see module BlockFields) and whether it is a shadow block.
      - `Input`: a named slot whose expression may be absent.
      - `Field` and `Literal`: terminal nodes holding values. */
  datatype Node =
    | Program(id: string, topLevelNodes: seq<Node>)
    | Sequence(id: string, blocks: seq<Node>)
    | Block(id: string, opcode: string, fields: seq<Node>, inputs: seq<Node>, isShadow: bool)
    | Input(id: string, name: string, expression: Option<Node>)
    | Field(id: string, name: string, value: string)
    | Literal(id: string, value: string)

  /** The variants deriving from `TerminalNode`. */
  predicate IsTerminal(n: Node)
  {
    n.Field? || n.Literal?
  }

  /** `c` lies strictly inside the subtree of `n`. */
  ghost predicate Below(c: Node, n: Node)
  {
    n decreases to c
  }

  /** The children of a node, in the order `children()` yields them: a Block
      yields its fields and then its inputs; an Input yields its expression
      when it has one. Every child is structurally smaller than its parent. */
  function Children(n: Node): (r: seq<Node>)
    ensures forall c <- r :: Below(c, n)
  {
    match n
    case Program(_, top) => top
    case Sequence(_, blocks) => blocks
    case Block(_, _, fields, inputs, _) => fields + inputs
    case Input(_, _, expression) => if expression.Some? then [expression.value] else []
    case Field(_, _, _) => []
    case Literal(_, _) => []
  }

  function Max(a: nat, b: nat): nat { if a < b then b else a }

  /** The largest element of `s`, 0 when `s` is empty, accumulated from the
      left as the `height` loop does. */
  function MaxOf(s: seq<nat>): (m: nat)
    ensures forall i :: 0 <= i < |s| ==> s[i] <= m
    ensures s == [] ==> m == 0
    ensures s != [] ==> exists i :: 0 <= i < |s| && s[i] == m
  {
    if s == [] then 0 else Max(MaxOf(s[..|s| - 1]), s[|s| - 1])
  }

  /** The height of a subtree: 1 plus the largest child height. */
  function Height(n: Node): (h: nat)
    decreases n, 1
    ensures h >= 1
  {
    1 + MaxOf(ChildHeights(n))
  }

  /** The heights of the children, in order. */
  function ChildHeights(n: Node): (hs: seq<nat>)
    decreases n, 0
    ensures |hs| == |Children(n)|
    ensures forall i :: 0 <= i < |hs| ==> hs[i] == Height(Children(n)[i])
  {
    var cs := Children(n);
    seq(|cs|, i requires 0 <= i < |cs| => assert cs[i] in cs; Height(cs[i]))
  }

  /** Height is characterised by the children: a childless node has height 1,
      every child is strictly lower than its parent, and some child is exactly
      one lower. */
  lemma HeightFromChildren(n: Node)
    ensures Children(n) == [] ==> Height(n) == 1
    ensures forall c <- Children(n) :: Height(c) < Height(n)
    ensures Children(n) != [] ==> exists c <- Children(n) :: Height(n) == Height(c) + 1
  {
    var cs := Children(n);
    var hs := ChildHeights(n);
    assert Height(n) == 1 + MaxOf(hs);
    forall c <- cs ensures Height(c) < Height(n) {
      var i :| 0 <= i < |cs| && cs[i] == c;
      assert hs[i] == Height(c) <= MaxOf(hs);
    }
    if cs != [] {
      var i :| 0 <= i < |hs| && hs[i] == MaxOf(hs);
      assert cs[i] in cs && hs[i] == Height(cs[i]);
    }
  }

  /** One step of the accumulating loop over `s`. */
  lemma MaxOfStep(s: seq<nat>, i: nat)
    requires i < |s|
    ensures MaxOf(s[..i + 1]) == Max(MaxOf(s[..i]), s[i])
  {
    assert s[..i + 1][..i] == s[..i];
  }

  /** The `height` property: a loop over the children that keeps the largest
      child height seen so far, each child's height computed the same way. */
  method ComputeHeight(n: Node) returns (h: nat)
    decreases n
    ensures h == Height(n)
  {
    var cs := Children(n);
    ghost var hs := ChildHeights(n);
    var maxChildHeight := 0;
    var i := 0;
    while i < |cs|
      invariant 0 <= i <= |cs| == |hs|
      invariant maxChildHeight == MaxOf(hs[..i])
    {
      assert cs[i] in cs;
      var childHeight := ComputeHeight(cs[i]);
      assert childHeight == hs[i];
      MaxOfStep(hs, i);
      maxChildHeight := Max(maxChildHeight, childHeight);
      i := i + 1;
    }
    assert hs[..i] == hs;
    h := maxChildHeight + 1;
  }

  /** A terminal node has no children and height 1. */
  lemma TerminalIsLeaf(n: Node)
    requires IsTerminal(n)
    ensures Children(n) == [] && Height(n) == 1
  {
  }

  /** An Input has at most one child: its expression, when present. */
  lemma InputChildren(n: Node)
    requires n.Input?
    ensures |Children(n)| <= 1
    ensures Children(n) == [] <==> n.expression.None?
    ensures n.expression.Some? ==> Children(n) == [n.expression.value]
  {
  }

  /** `Program.build`: a program with the fixed id "PROGRAM" whose children
      are the given top-level nodes. */
  function Build(topLevelNodes: seq<Node>): (p: Node)
    ensures p.Program? && p.id == "PROGRAM"
    ensures Children(p) == topLevelNodes
  {
    Program("PROGRAM", topLevelNodes)
  }

  /** The `category` property of a Block. */
  function Category(b: Node): (r: Result<BlockCategory, OpcodeError>)
    requires b.Block?
    ensures r.Success? <==> '_' in b.opcode && IsLower(Prefix(b.opcode))
  {
    FromOpcode(b.opcode)
  }
}
