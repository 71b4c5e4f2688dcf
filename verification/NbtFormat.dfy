/**
 Named binary tags as the protocol writes them: thirteen kinds of value, numbers big-endian, lengths
 in front of what they count. Nothing here knows of the skipper that is measured against it.
 */
module NbtFormat {
  import opened Bytes

  type Data = seq<byte>

  /** Eight bytes, as two halves. */
  datatype Long64 = Long64(high: s32, low: s32)

  /** A float or a double is the bits of its number. */
  datatype Nbt =
    | End
    | Byte(b: byte)
    | Short(n: u2)
    | Int(i: s32)
    | Long(l: Long64)
    | Float(bits: s32)
    | Double(bits64: Long64)
    | ByteArray(items: Data)
    | String(text: Data)
    | List(elementTag: byte, elements: seq<Nbt>)
    | Compound(entries: seq<Entry>)
    | IntArray(ints: seq<s32>)
    | LongArray(longs: seq<Long64>)

  datatype Entry = Entry(name: Data, value: Nbt)

  function TagOf(v: Nbt): byte {
    match v
    case End => 0
    case Byte(_) => 1
    case Short(_) => 2
    case Int(_) => 3
    case Long(_) => 4
    case Float(_) => 5
    case Double(_) => 6
    case ByteArray(_) => 7
    case String(_) => 8
    case List(_, _) => 9
    case Compound(_) => 10
    case IntArray(_) => 11
    case LongArray(_) => 12
  }

  /** Lengths fit their fields, list elements share the list's tag, and an entry is not an end tag. */
  predicate Writable(v: Nbt)
    decreases v
  {
    match v
    case ByteArray(items) => |items| < 0x8000_0000
    case String(text) => |text| < 0x1_0000
    case List(tag, elements) =>
      && |elements| < 0x8000_0000
      && forall i :: 0 <= i < |elements| ==> TagOf(elements[i]) == tag && Writable(elements[i])
    case Compound(entries) =>
      forall i :: 0 <= i < |entries| ==>
        |entries[i].name| < 0x1_0000 && !entries[i].value.End? && Writable(entries[i].value)
    case IntArray(ints) => |ints| < 0x8000_0000
    case LongArray(longs) => |longs| < 0x8000_0000
    case _ => true
  }

  function PackLong(l: Long64): (d: Data)
    ensures |d| == 8
  {
    PackS32(l.high) + PackS32(l.low)
  }

  function PackInts(ints: seq<s32>): Data {
    if ints == [] then [] else PackS32(ints[0]) + PackInts(ints[1..])
  }

  function PackLongs(longs: seq<Long64>): Data {
    if longs == [] then [] else PackLong(longs[0]) + PackLongs(longs[1..])
  }

  /** The value as it is written, without its tag. */
  function Written(v: Nbt): Data
    requires Writable(v)
    decreases v, 0
  {
    match v
    case End => []
    case Byte(b) => [b]
    case Short(n) => PackU16(n)
    case Int(i) => PackS32(i)
    case Long(l) => PackLong(l)
    case Float(bits) => PackS32(bits)
    case Double(bits) => PackLong(bits)
    case ByteArray(items) => PackS32(|items|) + items
    case String(text) => PackU16(|text|) + text
    case List(tag, elements) => [tag] + PackS32(|elements|) + WrittenElements(elements)
    case Compound(entries) => WrittenEntries(entries) + [0]
    case IntArray(ints) => PackS32(|ints|) + PackInts(ints)
    case LongArray(longs) => PackS32(|longs|) + PackLongs(longs)
  }

  function WrittenElements(elements: seq<Nbt>): Data
    requires forall i :: 0 <= i < |elements| ==> Writable(elements[i])
    decreases elements, 1
  {
    if elements == [] then [] else Written(elements[0]) + WrittenElements(elements[1..])
  }

  function WrittenEntries(entries: seq<Entry>): Data
    requires forall i :: 0 <= i < |entries| ==> |entries[i].name| < 0x1_0000 && Writable(entries[i].value)
    decreases entries, 1
  {
    if entries == [] then []
    else [TagOf(entries[0].value)] + PackU16(|entries[0].name|) + entries[0].name + Written(entries[0].value) + WrittenEntries(entries[1..])
  }
}
