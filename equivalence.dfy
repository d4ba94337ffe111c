/** The two equivalence relations on nodes: surface equivalence compares a
    node's own attributes, deep equivalence also compares the children
    position by position. */
module Equivalence {
  import opened Wrappers
  import opened Ast

  /** `surface_equivalent_to`: same variant and equal own attributes (the
      opcode of a Block, the name of an Input, the name and value of a Field,
      the value of a Literal); children are not looked at. */
  predicate SurfaceEquivalent(a: Node, b: Node)
  {
    match a
    case Program(_, _) => b.Program?
    case Sequence(_, _) => b.Sequence?
    case Block(_, opcode, _, _, _) => b.Block? && opcode == b.opcode
    case Input(_, name, _) => b.Input? && name == b.name
    case Field(_, name, value) => b.Field? && name == b.name && value == b.value
    case Literal(_, value) => b.Literal? && value == b.value
  }

  /** Surface equivalence is an equivalence relation. */
  lemma SurfaceEquivalenceRelation(a: Node, b: Node, c: Node)
    ensures SurfaceEquivalent(a, a)
    ensures SurfaceEquivalent(a, b) ==> SurfaceEquivalent(b, a)
    ensures SurfaceEquivalent(a, b) && SurfaceEquivalent(b, c) ==> SurfaceEquivalent(a, c)
  {
  }

  /** `equivalent_to`: surface equivalence plus positional deep equivalence
      of the children. Program and Sequence compare their child lists; a
      Block compares its fields and then its inputs; an Input compares its
      expressions, an empty slot matching only an empty slot; a terminal node
      is equivalent exactly when it is surface-equivalent. */
  predicate Equivalent(a: Node, b: Node)
    decreases a, 1
    ensures Equivalent(a, b) ==> SurfaceEquivalent(a, b)
    ensures IsTerminal(a) ==> (Equivalent(a, b) <==> SurfaceEquivalent(a, b))
  {
    match a
    case Program(_, top) =>
      b.Program? && |top| == |b.topLevelNodes|
      && forall i :: 0 <= i < |top| ==> Equivalent(top[i], b.topLevelNodes[i])
    case Sequence(_, blocks) =>
      b.Sequence? && |blocks| == |b.blocks|
      && forall i :: 0 <= i < |blocks| ==> Equivalent(blocks[i], b.blocks[i])
    case Block(_, _, _, _, _) =>
      SurfaceEquivalent(a, b) && FieldsAreEquivalent(a, b) && InputsAreEquivalent(a, b)
    case Input(_, _, expression) =>
      SurfaceEquivalent(a, b)
      && if expression.None? then b.expression.None?
         else b.expression.Some? && Equivalent(expression.value, b.expression.value)
    case Field(_, _, _) => SurfaceEquivalent(a, b)
    case Literal(_, _) => SurfaceEquivalent(a, b)
  }

  /** `Block._fields_are_equivalent`. */
  predicate FieldsAreEquivalent(a: Node, b: Node)
    requires a.Block? && b.Block?
    decreases a, 0
  {
    |a.fields| == |b.fields|
    && forall i :: 0 <= i < |a.fields| ==> Equivalent(a.fields[i], b.fields[i])
  }

  /** `Block._inputs_are_equivalent`. */
  predicate InputsAreEquivalent(a: Node, b: Node)
    requires a.Block? && b.Block?
    decreases a, 0
  {
    |a.inputs| == |b.inputs|
    && forall i :: 0 <= i < |a.inputs| ==> Equivalent(a.inputs[i], b.inputs[i])
  }

  /** Every node is equivalent to itself. */
  lemma {:induction false} EquivalentReflexive(a: Node)
    ensures Equivalent(a, a)
  {
    match a
    case Program(_, top) =>
      forall i | 0 <= i < |top| ensures Equivalent(top[i], top[i]) {
        EquivalentReflexive(top[i]);
      }
    case Sequence(_, blocks) =>
      forall i | 0 <= i < |blocks| ensures Equivalent(blocks[i], blocks[i]) {
        EquivalentReflexive(blocks[i]);
      }
    case Block(_, _, fields, inputs, _) =>
      forall i | 0 <= i < |fields| ensures Equivalent(fields[i], fields[i]) {
        EquivalentReflexive(fields[i]);
      }
      forall i | 0 <= i < |inputs| ensures Equivalent(inputs[i], inputs[i]) {
        EquivalentReflexive(inputs[i]);
      }
    case Input(_, _, expression) =>
      if expression.Some? {
        EquivalentReflexive(expression.value);
      }
    case Field(_, _, _) =>
    case Literal(_, _) =>
  }

  /** Equivalence does not depend on the order of its arguments. */
  lemma {:induction false} EquivalentSymmetric(a: Node, b: Node)
    requires Equivalent(a, b)
    ensures Equivalent(b, a)
  {
    match a
    case Program(_, top) =>
      forall i | 0 <= i < |top| ensures Equivalent(b.topLevelNodes[i], top[i]) {
        EquivalentSymmetric(top[i], b.topLevelNodes[i]);
      }
    case Sequence(_, blocks) =>
      forall i | 0 <= i < |blocks| ensures Equivalent(b.blocks[i], blocks[i]) {
        EquivalentSymmetric(blocks[i], b.blocks[i]);
      }
    case Block(_, _, fields, inputs, _) =>
      forall i | 0 <= i < |fields| ensures Equivalent(b.fields[i], fields[i]) {
        EquivalentSymmetric(fields[i], b.fields[i]);
      }
      forall i | 0 <= i < |inputs| ensures Equivalent(b.inputs[i], inputs[i]) {
        EquivalentSymmetric(inputs[i], b.inputs[i]);
      }
    case Input(_, _, expression) =>
      if expression.Some? {
        EquivalentSymmetric(expression.value, b.expression.value);
      }
    case Field(_, _, _) =>
    case Literal(_, _) =>
  }

  /** Equivalence is transitive, so together with the two lemmas above it is
      an equivalence relation. */
  lemma {:induction false} EquivalentTransitive(a: Node, b: Node, c: Node)
    requires Equivalent(a, b) && Equivalent(b, c)
    ensures Equivalent(a, c)
  {
    match a
    case Program(_, top) =>
      forall i | 0 <= i < |top| ensures Equivalent(top[i], c.topLevelNodes[i]) {
        EquivalentTransitive(top[i], b.topLevelNodes[i], c.topLevelNodes[i]);
      }
    case Sequence(_, blocks) =>
      forall i | 0 <= i < |blocks| ensures Equivalent(blocks[i], c.blocks[i]) {
        EquivalentTransitive(blocks[i], b.blocks[i], c.blocks[i]);
      }
    case Block(_, _, fields, inputs, _) =>
      forall i | 0 <= i < |fields| ensures Equivalent(fields[i], c.fields[i]) {
        EquivalentTransitive(fields[i], b.fields[i], c.fields[i]);
      }
      forall i | 0 <= i < |inputs| ensures Equivalent(inputs[i], c.inputs[i]) {
        EquivalentTransitive(inputs[i], b.inputs[i], c.inputs[i]);
      }
    case Input(_, _, expression) =>
      if expression.Some? {
        EquivalentTransitive(expression.value, b.expression.value, c.expression.value);
      }
    case Field(_, _, _) =>
    case Literal(_, _) =>
  }

  /** The right-hand side of `EquivalentByChildren`. */
  predicate ChildrenPositionallyEquivalent(a: Node, b: Node)
  {
    var ca, cb := Children(a), Children(b);
    |ca| == |cb| && forall i :: 0 <= i < |ca| ==> Equivalent(ca[i], cb[i])
  }

  /** Deep equivalence, stated through `Children` for every variant: the two
      nodes are surface-equivalent, have child lists of equal length whose
      children are pairwise equivalent by position, and (for Blocks) have as
      many fields as each other. In particular child lists of different
      lengths are never equivalent. */
  lemma EquivalentByChildren(a: Node, b: Node)
    ensures Equivalent(a, b) <==>
      && SurfaceEquivalent(a, b)
      && (a.Block? ==> |a.fields| == |b.fields|)
      && |Children(a)| == |Children(b)|
      && forall i :: 0 <= i < |Children(a)| ==> Equivalent(Children(a)[i], Children(b)[i])
  {
    if a.Block? {
      BlockByChildren(a, b);
    } else if a.Input? {
      InputByChildren(a, b);
    }
  }

  /** Deep equivalence is positional all the way down, so equivalent trees
      have the same height. */
  lemma {:induction false} EquivalentSameHeight(a: Node, b: Node)
    requires Equivalent(a, b)
    ensures Height(a) == Height(b)
    decreases a
  {
    EquivalentByChildren(a, b);
    var ca, cb := Children(a), Children(b);
    forall i | 0 <= i < |ca|
      ensures ChildHeights(a)[i] == ChildHeights(b)[i]
    {
      assert ca[i] in ca;
      EquivalentSameHeight(ca[i], cb[i]);
    }
    assert ChildHeights(a) == ChildHeights(b);
  }

  lemma InputByChildren(a: Node, b: Node)
    requires a.Input?
    ensures Equivalent(a, b) <==> SurfaceEquivalent(a, b) && ChildrenPositionallyEquivalent(a, b)
  {
    if SurfaceEquivalent(a, b) && a.expression.Some? && b.expression.Some? {
      var ca, cb := Children(a), Children(b);
      assert ca == [a.expression.value] && cb == [b.expression.value];
      assert (forall i :: 0 <= i < |ca| ==> Equivalent(ca[i], cb[i])) <==> Equivalent(ca[0], cb[0]);
    }
  }

  lemma BlockByChildren(a: Node, b: Node)
    requires a.Block?
    ensures Equivalent(a, b) <==>
      SurfaceEquivalent(a, b) && |a.fields| == |b.fields| && ChildrenPositionallyEquivalent(a, b)
  {
    if SurfaceEquivalent(a, b) && |a.fields| == |b.fields| {
      if ChildrenPositionallyEquivalent(a, b) {
        BlockChildrenToParts(a, b);
      }
      if FieldsAreEquivalent(a, b) && InputsAreEquivalent(a, b) {
        BlockPartsToChildren(a, b);
      }
    }
  }

  lemma BlockChildrenToParts(a: Node, b: Node)
    requires a.Block? && b.Block? && |a.fields| == |b.fields|
    requires ChildrenPositionallyEquivalent(a, b)
    ensures FieldsAreEquivalent(a, b) && InputsAreEquivalent(a, b)
  {
    var ca, cb := Children(a), Children(b);
    var k := |a.fields|;
    forall i | 0 <= i < k ensures Equivalent(a.fields[i], b.fields[i]) {
      assert ca[i] == a.fields[i] && cb[i] == b.fields[i];
    }
    forall i | 0 <= i < |a.inputs| ensures Equivalent(a.inputs[i], b.inputs[i]) {
      assert ca[k + i] == a.inputs[i] && cb[k + i] == b.inputs[i];
    }
  }

  lemma BlockPartsToChildren(a: Node, b: Node)
    requires a.Block? && b.Block?
    requires FieldsAreEquivalent(a, b) && InputsAreEquivalent(a, b)
    ensures ChildrenPositionallyEquivalent(a, b)
  {
    var ca, cb := Children(a), Children(b);
    var k := |a.fields|;
    forall i | 0 <= i < |ca| ensures Equivalent(ca[i], cb[i]) {
      if i < k {
        assert ca[i] == a.fields[i] && cb[i] == b.fields[i];
      } else {
        assert ca[i] == a.inputs[i - k] && cb[i] == b.inputs[i - k];
      }
    }
  }

  /** Deep equivalence of Inputs: equal names; an empty slot is equivalent
      only to an empty slot; two filled slots defer to their expressions. */
  lemma InputEquivalence(a: Node, b: Node)
    requires a.Input?
    ensures Equivalent(a, b) <==>
      && b.Input? && a.name == b.name
      && (a.expression.None? <==> b.expression.None?)
      && (a.expression.Some? ==> Equivalent(a.expression.value, b.expression.value))
  {
  }

  /** Why `equivalent_to` as written can fail instead of answering. */
  datatype Raised = AssertionFailed

  /** `equivalent_to` exactly as written in model/input.py together with the
      other variants of model.py: an Input with an expression compared with
      an Input without one reaches `assert other.expression is not None` and
      raises, instead of answering false. The zip loops stop at the first pair
      that is not equivalent or that raises. */
  function EquivalentAsWritten(a: Node, b: Node): (r: Result<bool, Raised>)
    decreases a, 1
  {
    match a
    case Program(_, top) =>
      if !b.Program? || |top| != |b.topLevelNodes| then Success(false)
      else ZipAsWritten(a, top, b.topLevelNodes, 0)
    case Sequence(_, blocks) =>
      if !b.Sequence? || |blocks| != |b.blocks| then Success(false)
      else ZipAsWritten(a, blocks, b.blocks, 0)
    case Block(_, _, fields, inputs, _) =>
      if !SurfaceEquivalent(a, b) || |fields| != |b.fields| then Success(false)
      else
        var fieldsResult := ZipAsWritten(a, fields, b.fields, 0);
        if fieldsResult != Success(true) then fieldsResult
        else if |inputs| != |b.inputs| then Success(false)
        else ZipAsWritten(a, inputs, b.inputs, 0)
    case Input(_, _, expression) =>
      if !SurfaceEquivalent(a, b) then Success(false)
      else if expression.None? then Success(b.expression.None?)
      else if b.expression.None? then Failure(AssertionFailed)
      else EquivalentAsWritten(expression.value, b.expression.value)
    case Field(_, _, _) => Success(SurfaceEquivalent(a, b))
    case Literal(_, _) => Success(SurfaceEquivalent(a, b))
  }

  /** The zip loop from position `i` on; `parent` only witnesses termination. */
  function ZipAsWritten(parent: Node, xs: seq<Node>, ys: seq<Node>, i: nat): (r: Result<bool, Raised>)
    requires forall x <- xs :: Below(x, parent)
    requires |xs| == |ys| && i <= |xs|
    decreases parent, 0, |xs| - i
  {
    if i == |xs| then Success(true)
    else
      assert xs[i] in xs && Below(xs[i], parent);
      var head := EquivalentAsWritten(xs[i], ys[i]);
      if head != Success(true) then head else ZipAsWritten(parent, xs, ys, i + 1)
  }

  /** Whenever the code as written answers, its answer is `Equivalent`. */
  lemma {:induction false} AsWrittenAgrees(a: Node, b: Node)
    ensures EquivalentAsWritten(a, b).Success? ==> EquivalentAsWritten(a, b).value == Equivalent(a, b)
    decreases a, 1
  {
    match a
    case Program(_, top) =>
      if b.Program? && |top| == |b.topLevelNodes| {
        ZipAgrees(a, top, b.topLevelNodes, 0);
      }
    case Sequence(_, blocks) =>
      if b.Sequence? && |blocks| == |b.blocks| {
        ZipAgrees(a, blocks, b.blocks, 0);
      }
    case Block(_, _, fields, inputs, _) =>
      if SurfaceEquivalent(a, b) && |fields| == |b.fields| {
        ZipAgrees(a, fields, b.fields, 0);
        if |inputs| == |b.inputs| {
          ZipAgrees(a, inputs, b.inputs, 0);
        }
      }
    case Input(_, _, expression) =>
      if SurfaceEquivalent(a, b) && expression.Some? && b.expression.Some? {
        AsWrittenAgrees(expression.value, b.expression.value);
      }
    case Field(_, _, _) =>
    case Literal(_, _) =>
  }

  lemma {:induction false} ZipAgrees(parent: Node, xs: seq<Node>, ys: seq<Node>, i: nat)
    requires forall x <- xs :: Below(x, parent)
    requires |xs| == |ys| && i <= |xs|
    ensures ZipAsWritten(parent, xs, ys, i).Success? ==>
      (ZipAsWritten(parent, xs, ys, i).value <==> forall j :: i <= j < |xs| ==> Equivalent(xs[j], ys[j]))
    decreases parent, 0, |xs| - i
  {
    if i < |xs| {
      assert xs[i] in xs;
      AsWrittenAgrees(xs[i], ys[i]);
      ZipAgrees(parent, xs, ys, i + 1);
    }
  }

  /** Conversely, on an equivalent pair the code as written answers true:
      `assert other.expression is not None` is reached only on pairs that are
      not equivalent. */
  lemma {:induction false} EquivalentAnswersTrue(a: Node, b: Node)
    requires Equivalent(a, b)
    ensures EquivalentAsWritten(a, b) == Success(true)
    decreases a, 1
  {
    match a
    case Program(_, top) =>
      ZipTrue(a, top, b.topLevelNodes, 0);
    case Sequence(_, blocks) =>
      ZipTrue(a, blocks, b.blocks, 0);
    case Block(_, _, fields, inputs, _) =>
      ZipTrue(a, fields, b.fields, 0);
      ZipTrue(a, inputs, b.inputs, 0);
    case Input(_, _, expression) =>
      if expression.Some? {
        EquivalentAnswersTrue(expression.value, b.expression.value);
      }
    case Field(_, _, _) =>
    case Literal(_, _) =>
  }

  lemma {:induction false} ZipTrue(parent: Node, xs: seq<Node>, ys: seq<Node>, i: nat)
    requires forall x <- xs :: Below(x, parent)
    requires |xs| == |ys| && i <= |xs|
    requires forall j :: i <= j < |xs| ==> Equivalent(xs[j], ys[j])
    ensures ZipAsWritten(parent, xs, ys, i) == Success(true)
    decreases parent, 0, |xs| - i
  {
    if i < |xs| {
      assert xs[i] in xs && Below(xs[i], parent);
      EquivalentAnswersTrue(xs[i], ys[i]);
      ZipTrue(parent, xs, ys, i + 1);
    }
  }

  /** The code as written is reflexive: comparing a tree with itself never
      raises and answers true. */
  lemma AsWrittenReflexive(a: Node)
    ensures EquivalentAsWritten(a, a) == Success(true)
  {
    EquivalentReflexive(a);
    EquivalentAnswersTrue(a, a);
  }

  /** The discrepancy: an empty Input compared with a filled one answers
      false in one direction and raises in the other, so the relation as
      written is not symmetric. `Equivalent` answers false both ways. */
  lemma AsWrittenNotSymmetric()
    ensures
      var empty := Input("i1", "VALUE", None);
      var filled := Input("i2", "VALUE", Some(Literal("l1", "10")));
      && EquivalentAsWritten(empty, filled) == Success(false)
      && EquivalentAsWritten(filled, empty) == Failure(AssertionFailed)
      && !Equivalent(empty, filled) && !Equivalent(filled, empty)
  {
  }
}
