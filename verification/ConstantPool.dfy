/**
 The constant pool of a class file as section 4.4 of the Java Virtual Machine Specification lays it
 out: what each kind of constant holds, how it is written, and how many indices it takes. Nothing
 here knows of the walker that is measured against it.
 */
module ConstantPool {
  import opened Bytes

  /** The four bytes of a number, and the text of a Utf8 constant, whose length has two bytes. */
  type Word = w: seq<byte> | |w| == 4 witness [0, 0, 0, 0]
  type ShortText = t: seq<byte> | |t| < 0x1_0000 witness []

  /** Indices name other constants; section 4.4.8 numbers the kinds of a method handle. */
  datatype Constant =
    | Utf8Constant(text: ShortText)
    | IntegerConstant(bits: Word)
    | FloatConstant(bits: Word)
    | LongConstant(high: Word, low: Word)
    | DoubleConstant(high: Word, low: Word)
    | ClassConstant(name: u2)
    | StringConstant(text16: u2)
    | Fieldref(owner: u2, nameAndType: u2)
    | Methodref(owner: u2, nameAndType: u2)
    | InterfaceMethodref(owner: u2, nameAndType: u2)
    | NameAndType(member: u2, descriptor: u2)
    | MethodHandle(kind: byte, reference: u2)
    | MethodType(descriptor: u2)
    | Dynamic(bootstrap: u2, nameAndType: u2)
    | InvokeDynamic(bootstrap: u2, nameAndType: u2)
    | ModuleConstant(name: u2)
    | PackageConstant(name: u2)

  /** Section 4.4, table 4.4-A. */
  function TagOf(c: Constant): byte {
    match c
    case Utf8Constant(_) => 1
    case IntegerConstant(_) => 3
    case FloatConstant(_) => 4
    case LongConstant(_, _) => 5
    case DoubleConstant(_, _) => 6
    case ClassConstant(_) => 7
    case StringConstant(_) => 8
    case Fieldref(_, _) => 9
    case Methodref(_, _) => 10
    case InterfaceMethodref(_, _) => 11
    case NameAndType(_, _) => 12
    case MethodHandle(_, _) => 15
    case MethodType(_) => 16
    case Dynamic(_, _) => 17
    case InvokeDynamic(_, _) => 18
    case ModuleConstant(_) => 19
    case PackageConstant(_) => 20
  }

  function Info(c: Constant): seq<byte> {
    match c
    case Utf8Constant(text) => PackU16(|text|) + text
    case IntegerConstant(bits) => bits
    case FloatConstant(bits) => bits
    case LongConstant(high, low) => high + low
    case DoubleConstant(high, low) => high + low
    case ClassConstant(name) => PackU16(name)
    case StringConstant(text) => PackU16(text)
    case Fieldref(owner, nameAndType) => PackU16(owner) + PackU16(nameAndType)
    case Methodref(owner, nameAndType) => PackU16(owner) + PackU16(nameAndType)
    case InterfaceMethodref(owner, nameAndType) => PackU16(owner) + PackU16(nameAndType)
    case NameAndType(member, descriptor) => PackU16(member) + PackU16(descriptor)
    case MethodHandle(kind, reference) => [kind] + PackU16(reference)
    case MethodType(descriptor) => PackU16(descriptor)
    case Dynamic(bootstrap, nameAndType) => PackU16(bootstrap) + PackU16(nameAndType)
    case InvokeDynamic(bootstrap, nameAndType) => PackU16(bootstrap) + PackU16(nameAndType)
    case ModuleConstant(name) => PackU16(name)
    case PackageConstant(name) => PackU16(name)
  }

  function Written(c: Constant): (d: seq<byte>)
    ensures |d| > 0 && d[0] == TagOf(c)
  {
    [TagOf(c)] + Info(c)
  }

  /** Section 4.4.5: a long or a double takes the next index as well. */
  predicate TakesTwoIndices(c: Constant) {
    c.LongConstant? || c.DoubleConstant?
  }

  /** A tag tells the kind of constant. */
  lemma TagsTellKinds(c: Constant)
    ensures (TagOf(c) == 1 <==> c.Utf8Constant?) && (TagOf(c) == 3 <==> c.IntegerConstant?) && (TagOf(c) == 4 <==> c.FloatConstant?)
    ensures (TagOf(c) == 5 <==> c.LongConstant?) && (TagOf(c) == 6 <==> c.DoubleConstant?) && (TagOf(c) == 7 <==> c.ClassConstant?)
    ensures (TagOf(c) == 8 <==> c.StringConstant?) && (TagOf(c) == 9 <==> c.Fieldref?) && (TagOf(c) == 10 <==> c.Methodref?)
    ensures (TagOf(c) == 11 <==> c.InterfaceMethodref?) && (TagOf(c) == 12 <==> c.NameAndType?) && (TagOf(c) == 15 <==> c.MethodHandle?)
    ensures (TagOf(c) == 16 <==> c.MethodType?) && (TagOf(c) == 17 <==> c.Dynamic?) && (TagOf(c) == 18 <==> c.InvokeDynamic?)
    ensures (TagOf(c) == 19 <==> c.ModuleConstant?) && (TagOf(c) == 20 <==> c.PackageConstant?)
  {
  }
}
