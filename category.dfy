/** Block categories, derived from the prefix of a block's opcode. */
module Categories {
  import opened Wrappers

  /** The members of the `BlockCategory` enumeration. */
  datatype BlockCategory =
    | Control | Custom | Event | Looks | Motion
    | Operators | Sensing | Sound | Unknown | Variables

  /** The enumeration value of each member. */
  function Value(c: BlockCategory): string
  {
    match c
    case Control => "control"
    case Custom => "custom"
    case Event => "event"
    case Looks => "looks"
    case Motion => "motion"
    case Operators => "operator"
    case Sensing => "sensing"
    case Sound => "sound"
    case Unknown => "unknown"
    case Variables => "data"
  }

  /** Enumeration lookup by value, `BlockCategory(s)`: the member whose value
      is `s`, and `Unknown` (the `_missing_` hook) when no member has it. */
  function FromValue(s: string): (c: BlockCategory)
    ensures Value(c) == s || (c == Unknown && forall k :: Value(k) != s)
  {
    if s == "control" then Control
    else if s == "custom" then Custom
    else if s == "event" then Event
    else if s == "looks" then Looks
    else if s == "motion" then Motion
    else if s == "operator" then Operators
    else if s == "sensing" then Sensing
    else if s == "sound" then Sound
    else if s == "data" then Variables
    else Unknown
  }

  /** Looking a member up by its own value gives that member back. */
  lemma FromValueOfValue(c: BlockCategory)
    ensures FromValue(Value(c)) == c
  {
  }

  /** Why `from_opcode` rejects an opcode. */
  datatype OpcodeError =
    | MissingUnderscore(opcode: string)  // the `ValueError` it raises
    | PrefixNotLower(prefix: string)     // the failing `assert prefix.islower()`

  /** `s.split("_")[0]`: the text before the first underscore (all of `s`
      when it has none). */
  function Prefix(s: string): (p: string)
    ensures p <= s
    ensures '_' !in p
    ensures |p| < |s| ==> s[|p|] == '_'
  {
    if s == [] || s[0] == '_' then [] else [s[0]] + Prefix(s[1..])
  }

  predicate IsLowerLetter(ch: char) { 'a' <= ch <= 'z' }
  predicate IsUpperLetter(ch: char) { 'A' <= ch <= 'Z' }

  /** `str.islower()`: at least one cased character and no upper-case one. */
  predicate IsLower(s: string)
  {
    (exists i :: 0 <= i < |s| && IsLowerLetter(s[i]))
    && forall i :: 0 <= i < |s| ==> !IsUpperLetter(s[i])
  }

  /** `BlockCategory.from_opcode`. */
  function FromOpcode(opcode: string): (r: Result<BlockCategory, OpcodeError>)
    ensures r == Failure(MissingUnderscore(opcode)) <==> '_' !in opcode
    ensures r == Failure(PrefixNotLower(Prefix(opcode))) <==> '_' in opcode && !IsLower(Prefix(opcode))
    ensures r.Success? <==> '_' in opcode && IsLower(Prefix(opcode))
    ensures r.Success? ==> Value(r.value) == Prefix(opcode) || r.value == Unknown
  {
    if '_' !in opcode then
      Failure(MissingUnderscore(opcode))
    else
      var prefix := Prefix(opcode);
      if !IsLower(prefix) then Failure(PrefixNotLower(prefix)) else Success(FromValue(prefix))
  }

  /** Two opcodes that contain an underscore and agree before their first one
      get the same verdict: the rest of the opcode plays no part. */
  lemma {:induction false} DeterminedByPrefix(a: string, b: string)
    requires '_' in a && '_' in b
    requires Prefix(a) == Prefix(b)
    ensures FromOpcode(a) == FromOpcode(b)
  {
  }

  /** A lower-case prefix that names no member falls back to `Unknown`. */
  lemma UnlistedPrefixIsUnknown(opcode: string)
    requires '_' in opcode && IsLower(Prefix(opcode))
    requires forall k :: Value(k) != Prefix(opcode)
    ensures FromOpcode(opcode) == Success(Unknown)
  {
  }

  /** The prefix of `p + "_" + rest` is `p` when `p` has no underscore. */
  lemma {:induction false} PrefixOfJoin(p: string, rest: string)
    requires '_' !in p
    ensures Prefix(p + "_" + rest) == p
  {
    if p != [] {
      assert (p + "_" + rest)[1..] == p[1..] + "_" + rest;
      PrefixOfJoin(p[1..], rest);
    }
  }

  /** An opcode built from a lower-case prefix, an underscore and any rest
      is categorised by that prefix alone. */
  lemma FromOpcodeOfJoin(p: string, rest: string)
    requires '_' !in p && IsLower(p)
    ensures FromOpcode(p + "_" + rest) == Success(FromValue(p))
  {
    PrefixOfJoin(p, rest);
    assert (p + "_" + rest)[|p|] == '_';
  }

  /** Every member's value is a lower-case word without an underscore. */
  lemma ValueIsLowerWord(c: BlockCategory)
    ensures '_' !in Value(c) && IsLower(Value(c))
  {
    assert IsLowerLetter(Value(c)[0]);
  }

  /** The prefix of `s` ends at the first underscore, at position `i`. */
  lemma {:induction false} PrefixAt(s: string, i: nat)
    requires i < |s| && s[i] == '_' && '_' !in s[..i]
    ensures Prefix(s) == s[..i]
  {
    if i > 0 {
      assert s[1..][..i - 1] == s[..i][1..];
      assert s[0] == s[..i][0];
      PrefixAt(s[1..], i - 1);
    }
  }

  /** An opcode whose first underscore, at position `i`, follows a member's
      value is categorised as that member. */
  lemma FromOpcodeAt(s: string, i: nat, c: BlockCategory)
    requires i < |s| && s[i] == '_' && s[..i] == Value(c)
    ensures FromOpcode(s) == Success(c)
  {
    ValueIsLowerWord(c);
    FromValueOfValue(c);
    PrefixAt(s, i);
  }

  /** Concrete opcodes of the block language. */
  lemma ExampleOperator()
    ensures FromOpcode("operator_add") == Success(Operators)
  {
    FromOpcodeAt("operator_add", 8, Operators);
  }

  lemma ExampleData()
    ensures FromOpcode("data_setvariableto") == Success(Variables)
  {
    FromOpcodeAt("data_setvariableto", 4, Variables);
  }

  lemma ExampleUnlisted()
    ensures FromOpcode("pen_clear") == Success(Unknown)
  {
    assert IsLowerLetter("pen"[0]);
    FromOpcodeOfJoin("pen", "clear");
    assert "pen" + "_" + "clear" == "pen_clear";
  }

  lemma ExampleNoUnderscore()
    ensures FromOpcode("whenflagclicked") == Failure(MissingUnderscore("whenflagclicked"))
  {
    var s := "whenflagclicked";
    assert forall i :: 0 <= i < |s| ==> s[i] != '_';
  }

  lemma ExampleUpperCase()
    ensures FromOpcode("Data_x") == Failure(PrefixNotLower("Data"))
  {
    PrefixOfJoin("Data", "x");
    assert "Data" + "_" + "x" == "Data_x";
    assert IsUpperLetter("Data"[0]);
  }
}
