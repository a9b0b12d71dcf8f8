/**
 * The column type catalogue: every type a column can have, the integer code the
 * host database uses for it in control files, and the width of one row's slot in
 * the column's data file.
 */
module Types {
  import opened Wrappers
  import opened Bytes

  /** The column types, in the order the catalogue declares them. */
  datatype ColumnType =
    | BYTES | CHAR1 | CHAR2 | CHAR4 | CHAR8 | CHAR16 | CHAR32 | CHAR64 | CHAR128 | CHAR256
    | DATE | DATETIME | DECIMAL | DOUBLE | FLOAT | INT | INT8 | INT16 | IPV4 | LONG
    | STRING | TIME | TIMESTAMP

  /** Every type once, in declaration order: the order in which fromInt searches. */
  const AllTypes: seq<ColumnType> := [
    BYTES, CHAR1, CHAR2, CHAR4, CHAR8, CHAR16, CHAR32, CHAR64, CHAR128, CHAR256,
    DATE, DATETIME, DECIMAL, DOUBLE, FLOAT, INT, INT8, INT16, IPV4, LONG,
    STRING, TIME, TIMESTAMP]

  /** The code of a type in control files. */
  function Code(t: ColumnType): int32 {
    match t
    case BYTES => 0x0000002
    case CHAR1 => 0x0080000
    case CHAR2 => 0x0100000
    case CHAR4 => 0x0001000
    case CHAR8 => 0x0002000
    case CHAR16 => 0x0004000
    case CHAR32 => 0x0200000
    case CHAR64 => 0x0400000
    case CHAR128 => 0x0800000
    case CHAR256 => 0x1000000
    case DATE => 0x2000000
    case DATETIME => 0x0000200
    case DECIMAL => 0x8000000
    case DOUBLE => 0x0000010
    case FLOAT => 0x0000020
    case INT => 0x0000040
    case INT8 => 0x0020000
    case INT16 => 0x0040000
    case IPV4 => 0x0008000
    case LONG => 0x0000080
    case STRING => 0x0000001
    case TIME => 0x4000000
    case TIMESTAMP => 0x0010000
  }

  /** The bytes one row takes in the data file; for BYTES and STRING, an 8-byte offset slot. */
  function Width(t: ColumnType): nat {
    match t
    case BYTES => 8
    case CHAR1 => 1
    case CHAR2 => 2
    case CHAR4 => 4
    case CHAR8 => 8
    case CHAR16 => 16
    case CHAR32 => 32
    case CHAR64 => 64
    case CHAR128 => 128
    case CHAR256 => 256
    case DATE => 4
    case DATETIME => 8
    case DECIMAL => 8
    case DOUBLE => 8
    case FLOAT => 4
    case INT => 4
    case INT8 => 1
    case INT16 => 2
    case IPV4 => 4
    case LONG => 8
    case STRING => 8
    case TIME => 4
    case TIMESTAMP => 8
  }

  predicate IsCharN(t: ColumnType) {
    t in {CHAR1, CHAR2, CHAR4, CHAR8, CHAR16, CHAR32, CHAR64, CHAR128, CHAR256}
  }

  /** The column types whose values live in a separate arena, addressed by offset slots. */
  predicate IsVarLength(t: ColumnType) {
    t == BYTES || t == STRING
  }

  /** The first type in `types` whose code is `value`, or UnknownType when none has it. */
  function Find(types: seq<ColumnType>, value: int): (r: Result<ColumnType>)
    ensures r.Err? ==> r.error == UnknownType
  {
    if types == [] then Err(UnknownType)
    else if Code(types[0]) == value then Ok(types[0])
    else Find(types[1..], value)
  }

  /** Find succeeds with a listed type of the given code, and fails exactly when no listed type has it. */
  lemma {:induction false} FindCorrect(types: seq<ColumnType>, value: int)
    ensures Find(types, value).Ok? ==> Find(types, value).value in types && Code(Find(types, value).value) == value
    ensures Find(types, value).Err? <==> forall i :: 0 <= i < |types| ==> Code(types[i]) != value
  {
    if types != [] && Code(types[0]) != value {
      FindCorrect(types[1..], value);
      assert forall i :: 1 <= i < |types| ==> types[i] == types[1..][i - 1];
    }
  }

  /** fromInt: the catalogue entry with the given code. */
  function FromInt(value: int32): Result<ColumnType> {
    Find(AllTypes, value)
  }

  /**
   * fromInt as the catalogue runs it: scan the types in declaration order and
   * return the first whose code matches; UnknownType when the scan ends.
   */
  method ScanFromInt(value: int32) returns (r: Result<ColumnType>)
    ensures r == FromInt(value)
    ensures r.Ok? ==> Code(r.value) == value
    ensures r.Err? <==> forall t :: Code(t) != value
  {
    var i := 0;
    while i < |AllTypes|
      invariant 0 <= i <= |AllTypes|
      invariant FromInt(value) == Find(AllTypes[i..], value)
    {
      if Code(AllTypes[i]) == value {
        return Ok(AllTypes[i]);
      }
      assert AllTypes[i..][1..] == AllTypes[i + 1..];
      i := i + 1;
    }
    FromIntCorrect(value);
    return Err(UnknownType);
  }

  lemma AllTypesComplete(t: ColumnType)
    ensures t in AllTypes
  {
  }

  /** No two types share a code. */
  lemma CodeInjective(s: ColumnType, t: ColumnType)
    requires Code(s) == Code(t)
    ensures s == t
  {
  }

  /**
   * fromInt returns the unique type with the given code, and fails with UnknownType
   * exactly when no type has it.
   */
  lemma FromIntCorrect(value: int32)
    ensures FromInt(value).Ok? ==> Code(FromInt(value).value) == value
    ensures FromInt(value).Ok? ==> forall t :: Code(t) == value ==> t == FromInt(value).value
    ensures FromInt(value).Err? <==> forall t :: Code(t) != value
    ensures FromInt(value).Err? ==> FromInt(value).error == UnknownType
  {
    FindCorrect(AllTypes, value);
    if FromInt(value).Err? {
      forall t
        ensures Code(t) != value
      {
        AllTypesComplete(t);
      }
    }
    if FromInt(value).Ok? {
      forall t | Code(t) == value
        ensures t == FromInt(value).value
      {
        CodeInjective(t, FromInt(value).value);
      }
    }
  }

  /** Decoding a type's code gives the type back. */
  lemma FromIntCode(t: ColumnType)
    ensures FromInt(Code(t)) == Ok(t)
  {
    FromIntCorrect(Code(t));
    AllTypesComplete(t);
  }

  /**
   * Every width is one of the slot sizes the catalogue uses; variable-length types
   * take an 8-byte offset slot and a CHARn type takes n bytes.
   */
  lemma WidthTable(t: ColumnType)
    ensures Width(t) in {1, 2, 4, 8, 16, 32, 64, 128, 256}
    ensures IsVarLength(t) ==> Width(t) == 8
    ensures t == CHAR1 ==> Width(t) == 1
    ensures t == CHAR256 ==> Width(t) == 256
    ensures Width(t) >= 1
  {
  }
}
