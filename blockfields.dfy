/** The normalisation a Block performs when it is constructed: its fields and
    its inputs are each sorted by name, stably, in place. */
module BlockFields {
  import opened Ast

  /** Python's `<` on strings: lexicographic by code point, a proper prefix
      being smaller. (Dafny's own `<` on sequences means "proper prefix".) */
  predicate LexLess(a: string, b: string)
  {
    if a == [] then b != []
    else if b == [] then false
    else if a[0] != b[0] then a[0] < b[0]
    else LexLess(a[1..], b[1..])
  }

  lemma {:induction false} LexLessIrreflexive(a: string)
    ensures !LexLess(a, a)
  {
    if a != [] {
      LexLessIrreflexive(a[1..]);
    }
  }

  lemma {:induction false} LexLessTransitive(a: string, b: string, c: string)
    requires LexLess(a, b) && LexLess(b, c)
    ensures LexLess(a, c)
  {
    if a != [] && b != [] && c != [] && a[0] == b[0] && b[0] == c[0] {
      LexLessTransitive(a[1..], b[1..], c[1..]);
    }
  }

  /** Any two different strings are ordered one way or the other. */
  lemma {:induction false} LexLessTotal(a: string, b: string)
    requires a != b
    ensures LexLess(a, b) || LexLess(b, a)
  {
    if a != [] && b != [] && a[0] == b[0] {
      assert a == [a[0]] + a[1..] && b == [b[0]] + b[1..];
      LexLessTotal(a[1..], b[1..]);
    }
  }

  /** "Not greater" is transitive. */
  lemma NotLessTransitive(a: string, b: string, c: string)
    requires !LexLess(b, a) && !LexLess(c, b)
    ensures !LexLess(c, a)
  {
    if LexLess(c, a) {
      if a == b {
      } else {
        LexLessTotal(a, b);
        LexLessTransitive(c, a, b);
      }
    }
  }

  /** The sort key `lambda x: x.name` of fields and inputs. */
  function Key(n: Node): string
  {
    if n.Field? || n.Input? then n.name else ""
  }

  /** Non-decreasing by name. */
  ghost predicate SortedByName(s: seq<Node>)
  {
    forall i, j :: 0 <= i < j < |s| ==> !LexLess(Key(s[j]), Key(s[i]))
  }

  /** The elements of `s` named `k`, in their order in `s`. */
  function WithName(s: seq<Node>, k: string): seq<Node>
  {
    if s == [] then []
    else WithName(s[..|s| - 1], k) + (if Key(s[|s| - 1]) == k then [s[|s| - 1]] else [])
  }

  /** Insert `x` after the last element of `s` whose name is not greater than
      its own, scanning from the right as an insertion sort does. */
  function InsertByName(x: Node, s: seq<Node>): (r: seq<Node>)
  {
    if s == [] || !LexLess(Key(x), Key(s[|s| - 1])) then s + [x]
    else InsertByName(x, s[..|s| - 1]) + [s[|s| - 1]]
  }

  /** A stable insertion sort by name: `list.sort(key=...)`'s result. */
  function SortByName(s: seq<Node>): (r: seq<Node>)
  {
    if s == [] then [] else InsertByName(s[|s| - 1], SortByName(s[..|s| - 1]))
  }

  lemma {:induction false} InsertPermutes(x: Node, s: seq<Node>)
    ensures multiset(InsertByName(x, s)) == multiset(s) + multiset{x}
  {
    if s != [] && LexLess(Key(x), Key(s[|s| - 1])) {
      var init, last := s[..|s| - 1], s[|s| - 1];
      assert s == init + [last];
      assert InsertByName(x, s) == InsertByName(x, init) + [last];
      InsertPermutes(x, init);
      assert multiset(s) == multiset(init) + multiset{last};
    } else {
      assert InsertByName(x, s) == s + [x];
    }
  }

  lemma {:induction false} InsertSorted(x: Node, s: seq<Node>)
    requires SortedByName(s)
    ensures SortedByName(InsertByName(x, s))
  {
    if s == [] {
      assert InsertByName(x, s) == [x];
    } else if !LexLess(Key(x), Key(s[|s| - 1])) {
      assert InsertByName(x, s) == s + [x];
      LastBoundsAll(s, x);
      SortedSnoc(s, x);
    } else {
      var init, last := s[..|s| - 1], s[|s| - 1];
      var front := InsertByName(x, init);
      assert InsertByName(x, s) == front + [last];
      assert SortedByName(init) by {
        assert forall i :: 0 <= i < |init| ==> init[i] == s[i];
      }
      InsertSorted(x, init);
      InsertPermutes(x, init);
      InsertedBelowLast(x, s, front);
      SortedSnoc(front, last);
    }
  }

  /** An element not smaller than the last of a sorted sequence is not
      smaller than any of its elements. */
  lemma LastBoundsAll(s: seq<Node>, x: Node)
    requires SortedByName(s) && s != [] && !LexLess(Key(x), Key(s[|s| - 1]))
    ensures forall z <- s :: !LexLess(Key(x), Key(z))
  {
    forall z <- s ensures !LexLess(Key(x), Key(z)) {
      var i :| 0 <= i < |s| && s[i] == z;
      if i < |s| - 1 {
        NotLessTransitive(Key(z), Key(s[|s| - 1]), Key(x));
      }
    }
  }

  /** When `x` is smaller than the last element of a sorted `s`, that last
      element is not smaller than anything in `x` inserted into the rest. */
  lemma InsertedBelowLast(x: Node, s: seq<Node>, front: seq<Node>)
    requires SortedByName(s) && s != [] && LexLess(Key(x), Key(s[|s| - 1]))
    requires multiset(front) == multiset(s[..|s| - 1]) + multiset{x}
    ensures forall z <- front :: !LexLess(Key(s[|s| - 1]), Key(z))
  {
    var init, last := s[..|s| - 1], s[|s| - 1];
    forall z <- front ensures !LexLess(Key(last), Key(z)) {
      assert z in multiset(front);
      if z == x {
        if LexLess(Key(last), Key(x)) {
          LexLessTransitive(Key(x), Key(last), Key(x));
          LexLessIrreflexive(Key(x));
        }
      } else {
        assert z in multiset(init);
        var k :| 0 <= k < |init| && init[k] == z;
        assert s[k] == z;
      }
    }
  }

  /** Appending an element no smaller than every element keeps a sequence
      sorted. */
  lemma SortedSnoc(t: seq<Node>, y: Node)
    requires SortedByName(t)
    requires forall z <- t :: !LexLess(Key(y), Key(z))
    ensures SortedByName(t + [y])
  {
    var r := t + [y];
    forall i, j | 0 <= i < j < |r| ensures !LexLess(Key(r[j]), Key(r[i])) {
      if j == |t| {
        assert r[i] == t[i] && t[i] in t;
      } else {
        assert r[i] == t[i] && r[j] == t[j];
      }
    }
  }

  /** Appending one element extends the elements of its name by it. */
  lemma WithNameSnoc(s: seq<Node>, y: Node, k: string)
    ensures WithName(s + [y], k) == WithName(s, k) + (if Key(y) == k then [y] else [])
  {
    assert (s + [y])[..|s|] == s;
  }

  /** Inserting only passes over elements whose name is strictly greater, so
      among the elements named like `x` it lands last. */
  lemma {:induction false} InsertStable(x: Node, s: seq<Node>, k: string)
    ensures WithName(InsertByName(x, s), k) == WithName(s, k) + (if Key(x) == k then [x] else [])
  {
    if s != [] && LexLess(Key(x), Key(s[|s| - 1])) {
      var init, last := s[..|s| - 1], s[|s| - 1];
      var front := InsertByName(x, init);
      assert s == init + [last];
      assert InsertByName(x, s) == front + [last];
      InsertStable(x, init, k);
      WithNameSnoc(front, last, k);
      WithNameSnoc(init, last, k);
      var before := WithName(init, k);
      if Key(x) == k {
        LexLessIrreflexive(k);
        assert Key(last) != k;
        assert WithName(front, k) == before + [x];
        assert WithName(s, k) == before;
        assert WithName(InsertByName(x, s), k) == before + [x];
      } else {
        assert WithName(front, k) == before;
      }
    } else {
      WithNameSnoc(s, x, k);
    }
  }

  /** The result is sorted by name. */
  lemma {:induction false} SortSorted(s: seq<Node>)
    ensures SortedByName(SortByName(s))
  {
    if s != [] {
      SortSorted(s[..|s| - 1]);
      InsertSorted(s[|s| - 1], SortByName(s[..|s| - 1]));
    }
  }

  /** The result is a permutation of the input. */
  lemma {:induction false} SortPermutes(s: seq<Node>)
    ensures multiset(SortByName(s)) == multiset(s)
  {
    if s != [] {
      var init, last := s[..|s| - 1], s[|s| - 1];
      assert s == init + [last];
      SortPermutes(init);
      InsertPermutes(last, SortByName(init));
    }
  }

  /** The sort is stable: elements with equal names keep their order. */
  lemma {:induction false} SortStable(s: seq<Node>, k: string)
    ensures WithName(SortByName(s), k) == WithName(s, k)
  {
    if s != [] {
      SortStable(s[..|s| - 1], k);
      InsertStable(s[|s| - 1], SortByName(s[..|s| - 1]), k);
    }
  }

  lemma {:induction false} WithNameMember(s: seq<Node>, k: string, x: Node)
    requires x in WithName(s, k)
    ensures x in s && Key(x) == k
  {
    if s != [] {
      var init := s[..|s| - 1];
      if x in WithName(init, k) {
        WithNameMember(init, k, x);
        assert s == init + [s[|s| - 1]];
      }
    }
  }

  /** The last element of a sequence sorted by name has a name no other
      element's name exceeds. */
  lemma LastIsGreatest(t: seq<Node>, y: Node)
    requires SortedByName(t) && t != [] && y in t
    ensures !LexLess(Key(t[|t| - 1]), Key(y))
  {
    var i :| 0 <= i < |t| && t[i] == y;
    if i < |t| - 1 {
      assert !LexLess(Key(t[|t| - 1]), Key(t[i]));
    } else {
      LexLessIrreflexive(Key(y));
    }
  }

  lemma NonEmptyHasName(s: seq<Node>)
    requires s != []
    ensures WithName(s, Key(s[|s| - 1])) != []
  {
  }

  lemma LastInOther(t: seq<Node>, u: seq<Node>, k: string)
    requires t != [] && k == Key(t[|t| - 1])
    requires WithName(t, k) == WithName(u, k)
    ensures t[|t| - 1] in u
  {
    var x := t[|t| - 1];
    assert WithName(t, k) == WithName(t[..|t| - 1], k) + [x];
    WithNameMember(u, k, x);
  }

  lemma LastOfWithName(t: seq<Node>)
    requires t != []
    ensures var w := WithName(t, Key(t[|t| - 1])); w != [] && w[|w| - 1] == t[|t| - 1]
  {
  }

  lemma SameLast(t: seq<Node>, u: seq<Node>)
    requires SortedByName(t) && SortedByName(u) && t != [] && u != []
    requires forall k :: WithName(t, k) == WithName(u, k)
    ensures t[|t| - 1] == u[|u| - 1]
  {
    var x, y := t[|t| - 1], u[|u| - 1];
    LastInOther(t, u, Key(x));
    LastInOther(u, t, Key(y));
    LastIsGreatest(t, y);
    LastIsGreatest(u, x);
    if Key(x) != Key(y) {
      LexLessTotal(Key(x), Key(y));
    }
    LastOfWithName(t);
    LastOfWithName(u);
    assert WithName(t, Key(x)) == WithName(u, Key(y));
  }

  lemma DropSameLast(t: seq<Node>, u: seq<Node>, k: string)
    requires t != [] && u != [] && t[|t| - 1] == u[|u| - 1]
    requires WithName(t, k) == WithName(u, k)
    ensures WithName(t[..|t| - 1], k) == WithName(u[..|u| - 1], k)
  {
    var x := t[|t| - 1];
    var c := if Key(x) == k then [x] else [];
    var a, b := WithName(t[..|t| - 1], k), WithName(u[..|u| - 1], k);
    assert WithName(t, k) == a + c;
    assert WithName(u, k) == b + c;
    assert a == (a + c)[..|a|] == (b + c)[..|b|] == b;
  }

  /** Two sequences sorted by name that hold the same elements of each name
      in the same order are equal. */
  lemma {:induction false} SortedUnique(t: seq<Node>, u: seq<Node>)
    requires SortedByName(t) && SortedByName(u)
    requires forall k :: WithName(t, k) == WithName(u, k)
    ensures t == u
    decreases |t| + |u|
  {
    if t != [] {
      NonEmptyHasName(t);
      assert WithName(u, Key(t[|t| - 1])) != [];
    }
    if u != [] {
      NonEmptyHasName(u);
      assert WithName(t, Key(u[|u| - 1])) != [];
    }
    if t != [] && u != [] {
      SameLast(t, u);
      var t', u' := t[..|t| - 1], u[..|u| - 1];
      forall k ensures WithName(t', k) == WithName(u', k) {
        DropSameLast(t, u, k);
      }
      assert SortedByName(t') by {
        assert forall i :: 0 <= i < |t'| ==> t'[i] == t[i];
      }
      assert SortedByName(u') by {
        assert forall i :: 0 <= i < |u'| ==> u'[i] == u[i];
      }
      SortedUnique(t', u');
      assert t == t' + [t[|t| - 1]] && u == u' + [u[|u| - 1]];
    }
  }

  /** `SortByName` is the only stable sort by name: any arrangement that is
      sorted by name and keeps the elements of each name in their original
      order is `SortByName(s)`. */
  lemma SortIsUnique(s: seq<Node>, t: seq<Node>)
    requires SortedByName(t)
    requires forall k :: WithName(t, k) == WithName(s, k)
    ensures t == SortByName(s)
  {
    SortSorted(s);
    forall k ensures WithName(t, k) == WithName(SortByName(s), k) {
      SortStable(s, k);
    }
    SortedUnique(t, SortByName(s));
  }

  /** `list.sort(key=lambda x: x.name)` on the list held in `a`: an insertion
      sort. */
  method SortInPlace(a: array<Node>)
    modifies a
    ensures a[..] == SortByName(old(a[..]))
  {
    ghost var original := a[..];
    var i := 0;
    while i < a.Length
      invariant 0 <= i <= a.Length
      invariant a[..i] == SortByName(original[..i])
      invariant a[i..] == original[i..]
    {
      InsertInPlace(a, i);
      SortPrefixStep(original, i);
      assert a[i + 1..] == original[i + 1..] by {
        assert forall k :: i + 1 <= k < a.Length ==> a[k] == original[k];
      }
      i := i + 1;
    }
    assert a[..] == a[..a.Length] && original == original[..a.Length];
  }

  /** Sorting one more element of a prefix inserts it into the sorted prefix. */
  lemma SortPrefixStep(s: seq<Node>, i: nat)
    requires i < |s|
    ensures SortByName(s[..i + 1]) == InsertByName(s[i], SortByName(s[..i]))
  {
    assert s[..i + 1][..i] == s[..i];
  }

  /** `InsertByName` puts `x` at position `j` when every element from `j` on
      has a strictly greater name and the one before `j` (if any) does not. */
  lemma {:induction false} InsertAt(x: Node, s: seq<Node>, j: nat)
    requires j <= |s|
    requires j == 0 || !LexLess(Key(x), Key(s[j - 1]))
    requires forall k :: j <= k < |s| ==> LexLess(Key(x), Key(s[k]))
    ensures InsertByName(x, s) == s[..j] + [x] + s[j..]
    decreases |s|
  {
    if j == |s| {
      assert s[..j] == s && s[j..] == [];
    } else {
      var init, last := s[..|s| - 1], s[|s| - 1];
      assert s == init + [last];
      assert forall k :: j <= k < |init| ==> init[k] == s[k];
      InsertAt(x, init, j);
      InsertAtSnoc(x, init, last, j);
    }
  }

  /** One step of `InsertAt`: an element greater than `x` appended after the
      insertion point stays after it. */
  lemma InsertAtSnoc(x: Node, init: seq<Node>, last: Node, j: nat)
    requires j <= |init| && LexLess(Key(x), Key(last))
    requires InsertByName(x, init) == init[..j] + [x] + init[j..]
    ensures InsertByName(x, init + [last]) == (init + [last])[..j] + [x] + (init + [last])[j..]
  {
    var s := init + [last];
    assert s[..|s| - 1] == init && s[|s| - 1] == last;
    assert InsertByName(x, s) == InsertByName(x, init) + [last];
    var front, back := init[..j], init[j..];
    assert s[..j] == front;
    assert s[j..] == back + [last];
    assert (front + [x] + back) + [last] == front + [x] + (back + [last]);
  }

  /** A sequence that agrees with `s` before `j`, holds `x` at `j` and `s`
      shifted by one after it is `s` with `x` inserted at `j`. */
  lemma ShiftedInsert(t: seq<Node>, s: seq<Node>, j: nat, x: Node)
    requires |t| == |s| + 1 && j <= |s|
    requires forall k :: 0 <= k < j ==> t[k] == s[k]
    requires t[j] == x
    requires forall k :: j < k < |t| ==> t[k] == s[k - 1]
    ensures t == s[..j] + [x] + s[j..]
  {
  }

  /** One insertion step: `a[i]` moves left past every strictly greater name
      in `a[..i]`, which shift one place right. */
  method InsertInPlace(a: array<Node>, i: nat)
    requires i < a.Length
    modifies a
    ensures a[..i + 1] == InsertByName(old(a[i]), old(a[..i]))
    ensures a[i + 1..] == old(a[i + 1..])
  {
    var x := a[i];
    ghost var sorted := a[..i];
    var j := ShiftGreater(a, i, x);
    a[j] := x;
    InsertedAt(a[..i + 1], sorted, j, x);
  }

  /** The loop of an insertion step: the elements of `a[..i]` with a name
      strictly greater than `x`'s move one place right, and the index of the
      gap they leave is returned. */
  method ShiftGreater(a: array<Node>, i: nat, x: Node) returns (j: nat)
    requires i < a.Length
    modifies a
    ensures j <= i
    ensures forall k :: 0 <= k < j ==> a[k] == old(a[k])
    ensures forall k :: j < k <= i ==> a[k] == old(a[k - 1])
    ensures a[i + 1..] == old(a[i + 1..])
    ensures j == 0 || !LexLess(Key(x), Key(a[j - 1]))
    ensures forall k :: j <= k < i ==> LexLess(Key(x), Key(old(a[k])))
  {
    ghost var sorted := a[..i];
    ghost var rest := a[i + 1..];
    j := i;
    while j > 0 && LexLess(Key(x), Key(a[j - 1]))
      invariant 0 <= j <= i
      invariant forall k :: 0 <= k < j ==> a[k] == sorted[k]
      invariant forall k :: j < k <= i ==> a[k] == sorted[k - 1]
      invariant a[i + 1..] == rest
      invariant forall k :: j <= k < i ==> LexLess(Key(x), Key(sorted[k]))
    {
      a[j] := a[j - 1];
      j := j - 1;
    }
  }

  /** Where the insertion step stops: `t` is `sorted` with `x` placed at `j`,
      the elements from `j` on shifted right, `x` strictly smaller than all of
      those and not smaller than the one before. Then `t` is the insertion. */
  lemma InsertedAt(t: seq<Node>, sorted: seq<Node>, j: nat, x: Node)
    requires |t| == |sorted| + 1 && j <= |sorted|
    requires forall k :: 0 <= k < j ==> t[k] == sorted[k]
    requires t[j] == x
    requires forall k :: j < k < |t| ==> t[k] == sorted[k - 1]
    requires j == 0 || !LexLess(Key(x), Key(t[j - 1]))
    requires forall k :: j <= k < |sorted| ==> LexLess(Key(x), Key(sorted[k]))
    ensures t == InsertByName(x, sorted)
  {
    InsertAt(x, sorted, j);
    ShiftedInsert(t, sorted, j, x);
  }

  /** Block construction (`__post_init__`): the fields and the inputs are
      each sorted by name, stably; the children are then the sorted fields
      followed by the sorted inputs. */
  method NewBlock(id: string, opcode: string, fields: seq<Node>, inputs: seq<Node>, isShadow: bool)
    returns (b: Node)
    requires forall f <- fields :: f.Field?
    requires forall i <- inputs :: i.Input?
    ensures b == Block(id, opcode, SortByName(fields), SortByName(inputs), isShadow)
    ensures SortedByName(b.fields) && multiset(b.fields) == multiset(fields)
    ensures SortedByName(b.inputs) && multiset(b.inputs) == multiset(inputs)
    ensures forall k :: WithName(b.fields, k) == WithName(fields, k) && WithName(b.inputs, k) == WithName(inputs, k)
    ensures Children(b) == b.fields + b.inputs
  {
    var fieldArray := new Node[|fields|](k requires 0 <= k < |fields| => fields[k]);
    assert fieldArray[..] == fields;
    SortInPlace(fieldArray);
    var inputArray := new Node[|inputs|](k requires 0 <= k < |inputs| => inputs[k]);
    assert inputArray[..] == inputs;
    SortInPlace(inputArray);
    b := Block(id, opcode, fieldArray[..], inputArray[..], isShadow);
    SortSorted(fields);
    SortPermutes(fields);
    SortSorted(inputs);
    SortPermutes(inputs);
    forall k ensures WithName(b.fields, k) == WithName(fields, k) && WithName(b.inputs, k) == WithName(inputs, k) {
      SortStable(fields, k);
      SortStable(inputs, k);
    }
  }
}
