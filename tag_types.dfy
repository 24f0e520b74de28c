/** The kinds of node a tag tree can hold, and the names used when dumping them. */
module TagTypes {

  datatype TagType =
    | End | Byte | Short | Int | Long | Float | Double
    | ByteArray | String | List | Compound

  /** The kinds a node can actually have: End is only a sentinel and is never constructed. */
  type NodeType = t: TagType | t != End witness Byte

  predicate IsInteger(t: TagType) {
    t == Byte || t == Short || t == Int || t == Long
  }

  /** Number of bits of the integer payload held by a node of integer kind `t`. */
  function Width(t: TagType): (bits: nat)
    requires IsInteger(t)
    ensures bits == 8 || bits == 16 || bits == 32 || bits == 64
  {
    match t
    case Byte => 8
    case Short => 16
    case Int => 32
    case Long => 64
  }

  /** The label printed for each kind. Every kind has one, and no two share it. */
  function TypeName(t: TagType): (name: string)
    ensures |name| > 4 && name[..4] == "TAG_"
  {
    match t
    case End => "TAG_End"
    case Byte => "TAG_Byte"
    case Short => "TAG_Short"
    case Int => "TAG_Int"
    case Long => "TAG_Long"
    case Float => "TAG_Float"
    case Double => "TAG_Double"
    case ByteArray => "TAG_Byte_Array"
    case String => "TAG_String"
    case List => "TAG_List"
    case Compound => "TAG_Compound"
  }

  lemma TypeNameInjective(a: TagType, b: TagType)
    requires TypeName(a) == TypeName(b)
    ensures a == b
  {
    var na, nb := TypeName(a), TypeName(b);
    assert |na| == |nb|;
    assert na[4] == nb[4];
    assert |na| > 5 ==> na[5] == nb[5];
    assert |na| > 9 ==> na[9] == nb[9];
  }
}
