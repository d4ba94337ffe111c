# facilitate — the AST node model

This project models the abstract-syntax-tree layer of facilitate, a diff tool
for block-based (Scratch-style) programs.

- **Trees:** a program is a tree of six node variants: Program, Sequence, Block, Input, Field and Literal. Field and Literal are terminal nodes.
- **Node operations:** every node has a height and a list of children. It can be walked as its descendants, in preorder (`nodes`) or in postorder, and searched by identifier (`find`).
- **Equivalence:** nodes are compared by two relations.
  - *Surface* equivalence compares only a node's own attributes: the opcode of a Block, the name of an Input, the name and value of a Field, the value of a Literal.
  - *Deep* equivalence also compares the children, position by position.
- **Block construction:** a Block sorts its fields and its inputs by name, stably.
- **Block categories:** an opcode's text before its first underscore gives the Block's category.
- **Mutable layer:** nodes carry a `parent` back-reference, wired up when a node is constructed. An Input has a single expression slot, filled by `add_literal` and emptied by `remove_child`.

How the model is split:
- `Ast.Node` is a datatype for the tree itself. Functions and lemmas cover the pure operations on it.
- `Ast.ComputeHeight` models the accumulator loop of `height`. `Traversal.Find` models the loop of `find`. `BlockFields.SortInPlace` models the in-place sort on an array. `ComputeHeight` and `SortInPlace` are proved equal to a specification function (`Height`, `SortByName`). `Find` is specified by what its result is: the first node in preorder with the given id, and nothing exactly when no node has that id.
- The mutable layer is the class `NodeHeap.TreeNode`. It has a `parent` field and a child list, which its methods update under `modifies` clauses.

Modules, one per file:
- `Wrappers`: Option, Result and Outcome.
- `Categories`: `BlockCategory` and `from_opcode`.
- `Ast`: the node datatype, `children`, `height` and `Program.build`.
- `Equivalence`: both equivalence relations, and `equivalent_to` as written.
- `Traversal`: descendants, preorder, postorder and `find`.
- `BlockFields`: Block construction and its stable sort.
- `NodeHeap`: parent wiring and the Input slot.

The identifier generator `generate_id` is outside the model. Where the code calls it, the caller passes the identifier in (`AddLiteral`'s `literalId`) or passes the generator as a function parameter (`CreateInput`'s `generateId`).

Python compares strings by code point. It is modelled by `BlockFields.LexLess`, because Dafny's `<` on sequences means "proper prefix". The datatype's Input uses `Option<Node>` for its expression, as `src/facilitate/model/input.py` does. The older Input of `src/facilitate/model.py`, whose expression is mandatory, is the `Some` case.

`from_opcode` (src/facilitate/model.py:38) also asserts that the prefix is lower case. The model follows the code and returns a second error for it, `PrefixNotLower`, next to the `ValueError` for an opcode without an underscore. Deep equivalence is meant to answer true or false for any two nodes. As written it can raise instead (see Findings). The model follows the code in `EquivalentAsWritten`.

## Model

| member | source | states |
|---|---|---|
| Categories.FromValue | src/facilitate/model.py:15-29 | the category whose value is the given string, or `Unknown` exactly when no category has that value (`_missing_`) |
| Categories.Value | src/facilitate/model.py:15-25 | the string value of each of the ten `BlockCategory` members |
| Categories.FromValueOfValue | src/facilitate/model.py:15-25 | every category is found again from its own value, so the ten values are distinct |
| Categories.Prefix | src/facilitate/model.py:37 | `split("_")[0]`: a prefix of the opcode with no underscore in it, followed by `_` when it is not the whole opcode |
| Categories.IsLower | src/facilitate/model.py:38 | `str.islower()` over ASCII: at least one lower-case letter and no upper-case letter |
| Categories.FromOpcode | src/facilitate/model.py:31-39 | fails with `MissingUnderscore` exactly when the opcode has no `_`, or with `PrefixNotLower` exactly when it has one and the prefix is not lower case; succeeds otherwise, with a category whose value is the prefix or else `Unknown` |
| Categories.DeterminedByPrefix | src/facilitate/model.py:32-39 | two opcodes that contain an underscore and have the same prefix get the same result |
| Categories.UnlistedPrefixIsUnknown | src/facilitate/model.py:27-39 | a valid opcode whose prefix is no category's value maps to `Unknown` |
| Categories.PrefixOfJoin | src/facilitate/model.py:37 | the prefix of `p + "_" + rest` is `p` when `p` has no underscore |
| Categories.FromOpcodeOfJoin | src/facilitate/model.py:32-39 | `p + "_" + rest` with an underscore-free, lower-case `p` maps to the category looked up from `p` |
| Categories.ValueIsLowerWord | src/facilitate/model.py:15-25 | every category's value is a lower-case word without an underscore |
| Categories.PrefixAt | src/facilitate/model.py:37 | when the first underscore is at position `i`, the prefix is the first `i` characters |
| Categories.FromOpcodeAt | src/facilitate/model.py:32-39 | an opcode whose first underscore follows a category's value gets that category |
| Categories.ExampleOperator | src/facilitate/model.py:21 | `"operator_add"` maps to `Operators` |
| Categories.ExampleData | src/facilitate/model.py:25 | `"data_setvariableto"` maps to `Variables` |
| Categories.ExampleUnlisted | src/facilitate/model.py:27-29 | `"pen_clear"` maps to `Unknown` |
| Categories.ExampleNoUnderscore | src/facilitate/model.py:33-35 | `"whenflagclicked"` fails with `MissingUnderscore` |
| Categories.ExampleUpperCase | src/facilitate/model.py:38 | `"Data_x"` fails the lower-case assertion on prefix `"Data"` |
| Ast.Children | src/facilitate/model.py:118-350 | the `children()` bodies of each variant (terminals yield nothing, Input its expression, Sequence its blocks, Block its fields then its inputs, Program its top-level nodes; the Input of src/facilitate/model/input.py:76-81 only when present); every child is strictly smaller than its node, so the tree is finite |
| Ast.MaxOf | src/facilitate/model.py:50-52 | the accumulated maximum is at least every element, is one of them, and is 0 for no elements |
| Ast.ChildHeights | src/facilitate/model.py:51-52 | one height per child, in order: position `i` holds the height of the `i`-th child |
| Ast.Height | src/facilitate/model.py:47-53 | the height is at least 1 |
| Ast.HeightFromChildren | src/facilitate/model.py:47-53 | a childless node has height 1; every child is strictly lower than its parent; some child is exactly one lower |
| Ast.ComputeHeight | src/facilitate/model/node.py:29-35 | the loop that keeps the largest child height so far returns exactly `Height(n)` |
| Ast.TerminalIsLeaf | src/facilitate/model.py:116-120 | a Field or Literal has no children and height 1 |
| Ast.InputChildren | src/facilitate/model/input.py:76-81 | an Input has at most one child: none when the slot is empty, otherwise exactly its expression |
| Ast.Build | src/facilitate/model.py:322-327 | a Program with id `"PROGRAM"` whose children are the given top-level nodes |
| Ast.Category | src/facilitate/model.py:295-297 | a Block's category is defined exactly when its opcode has an underscore and a lower-case prefix |
| Equivalence.SurfaceEquivalent | src/facilitate/model.py:132-331 | `surface_equivalent_to` of each variant: the same variant, with an equal opcode (Block), name (Input), name and value (Field) or value (Literal); Program and Sequence compare nothing else |
| Equivalence.SurfaceEquivalenceRelation | src/facilitate/model.py:132-138 | surface equivalence is reflexive, symmetric and transitive |
| Equivalence.Equivalent | src/facilitate/model.py:122-124 | deep equivalence implies surface equivalence; for a terminal node the two coincide |
| Equivalence.FieldsAreEquivalent | src/facilitate/model.py:248-259 | `_fields_are_equivalent`: equally many fields, and each field deeply equivalent to the one at the same position |
| Equivalence.InputsAreEquivalent | src/facilitate/model.py:261-272 | `_inputs_are_equivalent`: equally many inputs, and each input deeply equivalent to the one at the same position |
| Equivalence.EquivalentReflexive | src/facilitate/model.py:209-222 | every tree is deeply equivalent to itself |
| Equivalence.EquivalentSymmetric | src/facilitate/model.py:278-289 | deep equivalence is symmetric (for the corrected Input comparison) |
| Equivalence.EquivalentTransitive | src/facilitate/model.py:333-346 | deep equivalence is transitive |
| Equivalence.EquivalentByChildren | src/facilitate/model.py:333-346 | for every variant, deep equivalence holds iff the nodes are surface-equivalent, have equally many children (and, for Blocks, fields), and are pairwise equivalent by position; different child counts are never equivalent |
| Equivalence.BlockByChildren | src/facilitate/model.py:248-289 | a Block is equivalent iff it is surface-equivalent, has as many fields, and its fields-then-inputs children are pairwise equivalent |
| Equivalence.InputByChildren | src/facilitate/model.py:177-182 | an Input is equivalent iff it is surface-equivalent and its children are pairwise equivalent |
| Equivalence.InputEquivalence | src/facilitate/model/input.py:65-74 | two Inputs are equivalent iff their names are equal, both slots are empty or both are filled, and filled slots hold equivalent expressions |
| Equivalence.EquivalentAsWritten | src/facilitate/model/input.py:65-74 | `equivalent_to` as written, with `AssertionFailed` where input.py:73 raises; the other variants as in model.py, with zip loops that stop at the first pair that is not equivalent or that raises |
| Equivalence.ZipAsWritten | src/facilitate/model.py:215-222 | the strict `zip` loop from position `i` on: the first result other than true, or true when every remaining pair is equivalent |
| Equivalence.EquivalentSameHeight | src/facilitate/model.py:47-53 | deeply equivalent trees have the same height |
| Equivalence.AsWrittenAgrees | src/facilitate/model/input.py:65-74 | whenever `equivalent_to` as written returns instead of raising, it returns `Equivalent` |
| Equivalence.EquivalentAnswersTrue | src/facilitate/model/input.py:65-74 | on an equivalent pair `equivalent_to` as written does not raise and returns true, so the assertion of input.py:73 fails only on pairs that are not equivalent |
| Equivalence.ZipTrue | src/facilitate/model.py:215-222 | when every remaining pair is equivalent, the zip loop runs to the end and returns true |
| Equivalence.AsWrittenReflexive | src/facilitate/model/input.py:65-74 | `equivalent_to` as written compares every tree to itself without raising and returns true |
| Equivalence.ZipAgrees | src/facilitate/model.py:215-222 | the zip loop, when it does not raise, answers whether every remaining pair is equivalent |
| Equivalence.AsWrittenNotSymmetric | src/facilitate/model/input.py:71-74 | an empty Input compared with a filled one answers false one way and raises the other way |
| Traversal.NodesStartWithSelf | src/facilitate/model/node.py:75-79 | preorder starts with the node itself, then its descendants |
| Traversal.Descendants | src/facilitate/model/node.py:55-60 | `descendants()`: the children in order, each followed by its own descendants |
| Traversal.DescendantsOf | src/facilitate/model/node.py:58-60 | the loop of `descendants()` over a list of children |
| Traversal.Nodes | src/facilitate/model/node.py:75-79 | `nodes()`: the node, then its descendants |
| Traversal.Postorder | src/facilitate/model/node.py:81-86 | `postorder()`: the postorders of the children in order, then the node |
| Traversal.PostorderOf | src/facilitate/model/node.py:84-85 | the loop of `postorder()` over a list of children |
| Traversal.DescendantsOfAppend | src/facilitate/model/node.py:55-60 | the descendants contributed by a concatenated child list are those of each part in order |
| Traversal.BlockDescendants | src/facilitate/model.py:299-302 | a Block's descendants are its field subtrees followed by its input subtrees |
| Traversal.DescendantsBelow | src/facilitate/model/node.py:55-60 | every descendant lies strictly below the node, so the node is not among its own descendants |
| Traversal.ChildSubtreesAreDescendants | src/facilitate/model/node.py:55-60 | every child, and every node of the child's subtree, is a descendant |
| Traversal.PostorderPermutesNodes | src/facilitate/model/node.py:81-86 | postorder is a permutation of preorder, with the same length |
| Traversal.PostorderChildrenFirst | src/facilitate/model.py:86-91 | in postorder every node comes after all of its children, and the node itself is last |
| Traversal.Find | src/facilitate/model/node.py:62-79 | a result has the given id and is the first node with it in preorder; no result exactly when no node has the id; the node's own id finds the node |
| BlockFields.LexLessTotal | src/facilitate/model.py:292 | two different names are ordered one way or the other |
| BlockFields.LexLess | src/facilitate/model.py:292 | Python's `<` on the `str` sort keys: lexicographic by code point, with a proper prefix smaller |
| BlockFields.Key | src/facilitate/model.py:292-293 | the sort key `lambda x: x.name` of fields and inputs |
| BlockFields.InsertByName | src/facilitate/model.py:292 | one insertion step: `x` goes after the last element whose name is not greater than its own |
| BlockFields.SortByName | src/facilitate/model.py:291-293 | the list sorted stably by name, built by one insertion step per element |
| BlockFields.InsertAt | src/facilitate/model.py:292 | inserting an element places it after the last element whose name is not greater than its own |
| BlockFields.SortSorted | src/facilitate/model.py:291-293 | the sorted list is non-decreasing by name |
| BlockFields.SortPermutes | src/facilitate/model.py:291-293 | the sorted list is a permutation of the given list |
| BlockFields.SortStable | src/facilitate/model.py:291-293 | for every name, the elements with that name keep their order |
| BlockFields.SortIsUnique | src/facilitate/model.py:291-293 | any arrangement that is sorted by name and keeps each name's elements in order is the sorted list, so the model is the only stable sort |
| BlockFields.SortInPlace | src/facilitate/model.py:291-293 | the insertion sort leaves the array holding the stable sort by name of its old contents |
| BlockFields.SortedUnique | src/facilitate/model.py:291-293 | two sequences that are sorted by name and hold the same elements of each name in the same order are equal |
| BlockFields.ShiftGreater | src/facilitate/model.py:292 | the shifting loop moves the trailing run of elements whose names are greater than `x`'s one place right; the element before the gap, if any, is not greater |
| BlockFields.InsertInPlace | src/facilitate/model.py:292 | one insertion step leaves the first `i + 1` cells as the element inserted into the sorted first `i`, and the rest untouched |
| BlockFields.NewBlock | src/facilitate/model.py:291-302 | the constructed Block's fields and inputs are each sorted by name, permutations of the given lists and stable; its children are the fields followed by the inputs |
| NodeHeap.TreeNode.constructor | src/facilitate/model/node.py:18-22 | a new node has no parent and every child's parent is the new node; nothing else about the children changes |
| NodeHeap.TreeNode.Expression | src/facilitate/model/input.py:76-81 | the slot is empty exactly when the Input has no child, and otherwise holds that one child |
| NodeHeap.TreeNode.AddLiteral | src/facilitate/model/input.py:38-45 | a full slot gives `AlreadyHasExpression` and no change; an empty slot gets a fresh Literal with the given value, whose parent is the Input, and that Literal is returned |
| NodeHeap.TreeNode.RemoveChild | src/facilitate/model/input.py:83-89 | unless the child is the very object in the slot (an empty slot included), `NotExpression` and no change; otherwise the child's parent and the slot are both emptied |
| NodeHeap.CreateInput | src/facilitate/model/input.py:23-33 | a non-empty given id is used verbatim, otherwise the generator's id for `input:<name>`; the new Input is a root and its expression's parent is the Input |
| NodeHeap.AddThenRemove | src/facilitate/model/input.py:38-89 | adding a literal to an empty Input and removing the returned literal succeeds and leaves the Input empty and the literal detached |
| NodeHeap.DetermineId | src/facilitate/model/input.py:47-49 | the identifier is `:input[`, the name, `]@`, then the block id |
| NodeHeap.DetermineIdInjective | src/facilitate/model/input.py:47-49 | for names without `]`, different block and name pairs get different identifiers |

## Left out

- NetworkX, DOT and PNG export (`_add_to_nx_digraph`, `to_nx_digraph`, `to_dot`, `to_dot_png`): these are foreign-library calls and file I/O.
- `generate_id` and `quote` (`facilitate.util`) are not part of this model. Identifiers that the code would generate are parameters.
- `Input.copy` reads a `tags` attribute that `Node` (src/facilitate/model/node.py:14-18) does not define, so it is not modelled.
- The memoisation of `cached_property` is not modelled: `height` is a pure function of the tree. Nothing in the modelled files invalidates the cache, so in the code a height read before `add_literal` or `remove_child` stays stale afterwards. The model always gives the current height, so it does not capture that staleness.
- The GumTree-style matcher and the edit-script generator are not part of this model. The same holds for the tests that exercise them, which also depend on JSON fixtures.
- `overrides`, `final` and the `abc` machinery are replaced by a closed datatype.
- Categories.IsLower: `str.islower` is modelled over the ASCII letters only. Other cased Unicode characters count as uncased.
- Categories.FromOpcode: `PrefixNotLower` models the `assert` of src/facilitate/model.py:38, which exists only while assertions are enabled. Under `python -O` the assertion is removed, and an upper-case or empty prefix maps to `UNKNOWN` through `_missing_`; that mode is not modelled.
- Ast.Node: the `parent` fields of the Block and Sequence variants in src/facilitate/model.py are not in the datatype. Back-references exist only in the `NodeHeap` class.
- NodeHeap.TreeNode.constructor: the dataclass `__init__` also accepts an optional `parent=` keyword (src/facilitate/model/node.py:18). The constructor has no such parameter and always starts with no parent. None of the modelled call sites passes it.
- NodeHeap.TreeNode: the class is not linked to the `Ast.Node` datatype by an abstraction function. Heights, traversals and equivalence are proved on the datatype only.
- Traversal.Find: it returns the found subtree as a value. Object identity is not part of the datatype.
- BlockFields.SortInPlace: Python's `list.sort` (Timsort) is modelled by an insertion sort. What is observable is the same: `SortIsUnique` shows that exactly one stable sort by name exists.
- BlockFields.NewBlock: `__post_init__` sorts the caller's own `fields` and `inputs` lists in place, so afterwards the caller's lists are the Block's lists (aliased) and are sorted too. `NewBlock` takes the lists as values and sorts fresh copies, so this aliasing is not captured.
- NodeHeap.TreeNode.RemoveChild: the modelled files define `remove_child` only for Input, so the method requires an Input.

## Findings

| source | as written | input that shows it | evidently intended | confidence | as-written member | corrected member |
|---|---|---|---|---|---|---|
| src/facilitate/model/input.py:71-74 | when `self` has an expression and `other` has none, `assert other.expression is not None` raises `AssertionError`; in the other direction the comparison returns false | `Input(name="VALUE", expression=Literal("10"))` compared with `Input(name="VALUE", expression=None)` | a filled slot is not equivalent to an empty one, so the comparison returns false in both directions and deep equivalence stays a total, symmetric relation | medium, not executed | Equivalence.AsWrittenNotSymmetric | Equivalence.EquivalentSymmetric |
