/**
 Annotations as sections 4.7.16 and 4.7.16.1 of the Java Virtual Machine Specification lay them
 out. Nothing here knows of the skipper that is measured against it.
 */
module AnnotationFormat {
  import opened Bytes

  /** What table 4.7.16.1-A gives a constant of its own tag, and the class literal. */
  datatype Kind =
    | ByteKind
    | CharKind
    | DoubleKind
    | FloatKind
    | IntKind
    | LongKind
    | ShortKind
    | BooleanKind
    | StringKind
    | ClassKind

  datatype ElementValue =
    | Constant(kind: Kind, index: u2)
    | EnumConstant(typeName: u2, constantName: u2)
    | Nested(annotation: Annotation)
    | Array(values: seq<ElementValue>)

  datatype Pair = Pair(name: u2, value: ElementValue)

  datatype Annotation = Annotation(typeIndex: u2, pairs: seq<Pair>)

  function KindTag(kind: Kind): byte {
    match kind
    case ByteKind => 'B' as int
    case CharKind => 'C' as int
    case DoubleKind => 'D' as int
    case FloatKind => 'F' as int
    case IntKind => 'I' as int
    case LongKind => 'J' as int
    case ShortKind => 'S' as int
    case BooleanKind => 'Z' as int
    case StringKind => 's' as int
    case ClassKind => 'c' as int
  }

  /** The counts fit their two bytes. */
  predicate ValidValue(v: ElementValue)
    decreases v
  {
    match v
    case Constant(_, _) => true
    case EnumConstant(_, _) => true
    case Nested(annotation) => ValidAnnotation(annotation)
    case Array(values) => |values| < 0x1_0000 && forall v :: v in values ==> ValidValue(v)
  }

  predicate ValidAnnotation(a: Annotation)
    decreases a
  {
    |a.pairs| < 0x1_0000 && forall p :: p in a.pairs ==> ValidValue(p.value)
  }

  function EncodeValue(v: ElementValue): seq<byte>
    requires ValidValue(v)
    decreases v, 1
  {
    match v
    case Constant(kind, index) => [KindTag(kind)] + PackU16(index)
    case EnumConstant(typeName, constantName) => ['e' as int] + (PackU16(typeName) + PackU16(constantName))
    case Nested(annotation) => ['@' as int] + EncodeAnnotation(annotation)
    case Array(values) => ['[' as int] + (PackU16(|values|) + EncodeValues(values))
  }

  function EncodeValues(values: seq<ElementValue>): seq<byte>
    requires forall v :: v in values ==> ValidValue(v)
    decreases values, 0
  {
    if |values| == 0 then [] else EncodeValue(values[0]) + EncodeValues(values[1..])
  }

  function EncodeAnnotation(a: Annotation): seq<byte>
    requires ValidAnnotation(a)
    decreases a, 1
  {
    PackU16(a.typeIndex) + PackU16(|a.pairs|) + EncodePairs(a.pairs)
  }

  function EncodePair(p: Pair): seq<byte>
    requires ValidValue(p.value)
    decreases p, 1
  {
    PackU16(p.name) + EncodeValue(p.value)
  }

  function EncodePairs(pairs: seq<Pair>): seq<byte>
    requires forall p :: p in pairs ==> ValidValue(p.value)
    decreases pairs, 0
  {
    if |pairs| == 0 then [] else EncodePair(pairs[0]) + EncodePairs(pairs[1..])
  }

  /** Every constant, and every small collection of valid values, can be written. */
  lemma SmallValuesAreValid(kind: Kind, a: u2, b: u2, values: seq<ElementValue>, annotation: Annotation)
    ensures ValidValue(Constant(kind, a)) && ValidValue(EnumConstant(a, b))
    ensures |values| < 0x1_0000 && (forall v :: v in values ==> ValidValue(v)) ==> ValidValue(Array(values))
    ensures |annotation.pairs| < 0x1_0000 && (forall p :: p in annotation.pairs ==> ValidValue(p.value)) ==>
              ValidAnnotation(annotation) && ValidValue(Nested(annotation))
  {
  }
}
