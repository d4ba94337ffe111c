/** The mutable side of the node model: every node object has an identifier, a
    kind, a `parent` back-reference and a list of child objects. Construction
    wires the children's `parent` fields to the new node; an Input's single
    expression slot is filled by `AddLiteral` and emptied by `RemoveChild`. */
module NodeHeap {
  import opened Wrappers

  /** What distinguishes the node variants, apart from their children. */
  datatype Kind =
    | ProgramKind
    | SequenceKind
    | BlockKind(opcode: string, isShadow: bool)
    | InputKind(name: string)
    | FieldKind(name: string, value: string)
    | LiteralKind(value: string)

  predicate IsTerminalKind(k: Kind) {
    k.FieldKind? || k.LiteralKind?
  }

  /** The `ValueError`s raised by the Input slot operations; each carries the
      identifiers its message names. */
  datatype SlotError =
    | AlreadyHasExpression(inputId: string)
    | NotExpression(childId: string, inputId: string)

  class TreeNode {
    const id: string
    const kind: Kind
    var parent: TreeNode?
    var kids: seq<TreeNode>

    /** Terminals have no children and an Input has at most one, its
        expression. */
    ghost predicate Shaped()
      reads this
    {
      (IsTerminalKind(kind) ==> kids == []) && (kind.InputKind? ==> |kids| <= 1)
    }

    /** An Input's expression slot, read off its children: the slot is empty
        exactly when the Input has no child, and otherwise holds that child. */
    function Expression(): (e: Option<TreeNode>)
      reads this
      requires kind.InputKind? && |kids| <= 1
      ensures e.None? <==> kids == []
      ensures e.Some? ==> kids == [e.value]
    {
      if kids == [] then None else Some(kids[0])
    }

    /** Construction: the node starts as a root, and every child's `parent`
        is set to the new node; nothing else about the children changes. */
    constructor (id: string, kind: Kind, kids: seq<TreeNode>)
      requires IsTerminalKind(kind) ==> kids == []
      requires kind.InputKind? ==> |kids| <= 1
      modifies set c | c in kids
      ensures this.id == id && this.kind == kind && this.kids == kids
      ensures parent == null && Shaped()
      ensures forall c <- kids :: c.parent == this
      ensures forall c <- kids :: c.kids == old(c.kids)
    {
      this.id := id;
      this.kind := kind;
      this.kids := kids;
      parent := null;
      new;
      var i := 0;
      while i < |kids|
        invariant 0 <= i <= |kids|
        invariant this.kids == kids && parent == null
        invariant forall k :: 0 <= k < i ==> kids[k].parent == this
        invariant forall c <- kids :: c.kids == old(c.kids)
      {
        kids[i].parent := this;
        i := i + 1;
      }
    }

    /** Fills an empty expression slot with a new Literal whose parent is this
        Input and returns it; a slot that is already full is an error and
        leaves the Input as it was. */
    method AddLiteral(value: string, literalId: string) returns (r: Result<TreeNode, SlotError>)
      requires kind.InputKind? && Shaped()
      modifies this
      ensures Shaped()
      ensures old(kids) != [] ==> r == Failure(AlreadyHasExpression(id)) && unchanged(this)
      ensures old(kids) == [] ==> r.Success? && fresh(r.value)
      ensures old(kids) == [] ==> r.Success? && r.value.id == literalId && r.value.kind == LiteralKind(value)
      ensures old(kids) == [] ==> r.Success? && r.value.parent == this && r.value.kids == []
      ensures old(kids) == [] ==> r.Success? && kids == [r.value] && parent == old(parent)
    {
      if kids != [] {
        return Failure(AlreadyHasExpression(id));
      }
      var literal := new TreeNode(literalId, LiteralKind(value), []);
      literal.parent := this;
      kids := [literal];
      r := Success(literal);
    }

    /** Empties the expression slot when `child` is (as an object) the current
        expression, detaching it; otherwise, including when the slot is
        empty, it is an error and nothing changes. */
    method RemoveChild(child: TreeNode) returns (r: Outcome<SlotError>)
      requires kind.InputKind? && Shaped()
      modifies this, child
      ensures Shaped()
      ensures old(kids) != [child] ==> r == Fail(NotExpression(child.id, id)) && unchanged(this, child)
      ensures old(kids) == [child] ==> r == Pass && kids == [] && child.parent == null
      ensures old(kids) == [child] && child != this ==> parent == old(parent) && child.kids == old(child.kids)
    {
      if kids != [child] {
        return Fail(NotExpression(child.id, id));
      }
      child.parent := null;
      kids := [];
      r := Pass;
    }
  }

  /** `create`: a non-empty given identifier is used verbatim; a missing or
      empty one is replaced by one drawn from `generateId`, which stands for
      the identifier generator and is given the prefix `input:<name>`. */
  method CreateInput(name: string, expression: TreeNode?, givenId: Option<string>, generateId: string -> string)
    returns (r: TreeNode)
    modifies if expression == null then {} else {expression}
    ensures fresh(r) && r.kind == InputKind(name) && r.parent == null && r.Shaped()
    ensures givenId.Some? && givenId.value != "" ==> r.id == givenId.value
    ensures givenId.None? || givenId.value == "" ==> r.id == generateId("input:" + name)
    ensures expression == null ==> r.kids == []
    ensures expression != null ==> r.kids == [expression] && expression.parent == r
    ensures expression != null ==> expression.kids == old(expression.kids)
  {
    var id: string;
    if givenId.Some? && givenId.value != "" {
      id := givenId.value;
    } else {
      id := generateId("input:" + name);
    }
    var kids := if expression == null then [] else [expression];
    assert (set c | c in kids) == (if expression == null then {} else {expression});
    r := new TreeNode(id, InputKind(name), kids);
  }

  /** Adding a literal to an empty Input and then removing the literal that
      was returned leaves the Input empty again, and the literal detached. */
  method AddThenRemove(input: TreeNode, value: string, literalId: string)
    returns (literal: TreeNode, removed: Outcome<SlotError>)
    requires input.kind.InputKind? && input.Shaped() && input.kids == []
    modifies input
    ensures removed == Pass && input.kids == [] && input.Expression() == None
    ensures literal.parent == null && input.parent == old(input.parent)
  {
    var added := input.AddLiteral(value, literalId);
    literal := added.value;
    removed := input.RemoveChild(literal);
  }

  /** `determine_id`: the identifier of the input slot `name` of the block
      `blockId`. */
  function DetermineId(blockId: string, name: string): (r: string)
    ensures |r| == |name| + |blockId| + 9
    ensures r[..7] == ":input[" && r[7..7 + |name|] == name
    ensures r[7 + |name|..9 + |name|] == "]@" && r[9 + |name|..] == blockId
  {
    ":input[" + name + "]@" + blockId
  }

  /** In the identifier of a slot whose name has no `]`, the first `]` closes
      the name. */
  lemma FirstClosingBracket(blockId: string, name: string)
    requires ']' !in name
    ensures forall k :: 7 <= k < 7 + |name| ==> DetermineId(blockId, name)[k] != ']'
    ensures DetermineId(blockId, name)[7 + |name|] == ']'
  {
    var s := DetermineId(blockId, name);
    forall k | 7 <= k < 7 + |name|
      ensures s[k] != ']'
    {
      assert s[k] == s[7..7 + |name|][k - 7] == name[k - 7];
    }
    assert s[7 + |name|] == s[7 + |name|..9 + |name|][0];
  }

  /** For input names that contain no `]`, distinct (block, name) pairs get
      distinct identifiers. */
  lemma DetermineIdInjective(b1: string, n1: string, b2: string, n2: string)
    requires ']' !in n1 && ']' !in n2
    requires DetermineId(b1, n1) == DetermineId(b2, n2)
    ensures b1 == b2 && n1 == n2
  {
    FirstClosingBracket(b1, n1);
    FirstClosingBracket(b2, n2);
    assert |n1| == |n2|;
  }
}
