/**
 The wire format of the pulse exporter messages: base 128 varints, fields and
 unknown fields, as functions on byte strings.

 A varint's bytes fill disjoint groups of bits, so the source's bitwise ors
 are written as sums; shifts are products truncated to 64 bits.
 */
module Wire {
  type Byte = x: int | 0 <= x < 256
  type Bytes = seq<Byte>

  const TWO64 := 0x1_0000_0000_0000_0000
  const TWO63 := 0x8000_0000_0000_0000
  const TWO32 := 0x1_0000_0000
  const MAX_INT := TWO63 - 1

  predicate IsInt64(x: int) { -TWO63 <= x < TWO63 }

  /** uint64(x) for an int64, and back. */
  function ToUint64(x: int): (u: nat)
    requires IsInt64(x)
    ensures u < 0x1_0000_0000_0000_0000 && (u - x) % 0x1_0000_0000_0000_0000 == 0
  {
    if x < 0 then x + TWO64 else x
  }

  function ToInt64(u: nat): (x: int)
    ensures -0x8000_0000_0000_0000 <= x < 0x8000_0000_0000_0000 && (u - x) % 0x1_0000_0000_0000_0000 == 0
  {
    if u % TWO64 >= TWO63 then u % TWO64 - TWO64 else u % TWO64
  }

  function ToInt32(u: nat): (x: int)
    ensures -0x8000_0000 <= x < 0x8000_0000 && (u - x) % 0x1_0000_0000 == 0
  {
    if u % TWO32 >= TWO32 / 2 then u % TWO32 - TWO32 else u % TWO32
  }

  datatype Error =
    | IntOverflow
    | UnexpectedEof
    | InvalidLength
    | UnexpectedEndOfGroup
    | EndGroupForNonGroup
    | IllegalTag
    | WrongWireType
    | IllegalWireType

  // ---------------------------------------------------------------------
  // Varints
  // ---------------------------------------------------------------------

  function Varint(v: nat): (bs: Bytes)
    ensures |bs| >= 1
  {
    if v < 128 then [v] else [v % 128 + 128] + Varint(v / 128)
  }

  /** math/bits.Len64 */
  function BitLength(x: nat): nat {
    if x == 0 then 0 else 1 + BitLength(x / 2)
  }

  function SetLowBit(x: nat): nat {
    if x % 2 == 0 then x + 1 else x
  }

  /** The size of a varint without a loop: sovPulseExporter. */
  function Sov(x: nat): nat {
    (BitLength(SetLowBit(x)) + 6) / 7
  }

  /** Seven bits shifted left by 7 * k in a 64-bit word. */
  function Shifted(bits: nat, k: nat): nat {
    if k == 0 then bits else 128 * Shifted(bits, k - 1) % TWO64
  }

  /** A value and the index after it. */
  datatype ReadResult = Got(value: nat, next: nat) | Bad(error: Error)

  /** Byte number `k` of a varint stands at index `i`; an eleventh byte is an overflow. */
  function ReadFrom(data: Bytes, i: nat, k: nat, acc: nat): (r: ReadResult)
    requires k <= 10
    ensures r.Got? ==> i < r.next <= |data|
    decreases 10 - k
  {
    if k == 10 then Bad(IntOverflow)
    else if i >= |data| then Bad(UnexpectedEof)
    else
      var sum := acc + Shifted(data[i] % 128, k);
      if data[i] < 128 then Got(sum, i + 1) else ReadFrom(data, i + 1, k + 1, sum)
  }

  function Read(data: Bytes, i: nat): (r: ReadResult)
    ensures r.Got? ==> i < r.next <= |data|
  {
    ReadFrom(data, i, 0, 0)
  }

  // ---------------------------------------------------------------------
  // Skipping a field
  // ---------------------------------------------------------------------

  /** The index after a payload that starts at `i`; groups have none of their own. */
  datatype Passed = Ok(next: nat) | Failed(error: Error)

  function Payload(data: Bytes, i: nat, wireType: nat): (r: Passed)
    ensures r.Ok? ==> r.next >= i
  {
    if wireType == 0 then
      match Read(data, i) case Bad(e) => Failed(e) case Got(_, next) => Ok(next)
    else if wireType == 1 then Ok(i + 8)
    else if wireType == 2 then
      match Read(data, i)
      case Bad(e) => Failed(e)
      case Got(v, next) => if ToInt64(v) < 0 then Failed(InvalidLength) else Ok(next + ToInt64(v))
    else if wireType == 3 || wireType == 4 then Ok(i)
    else if wireType == 5 then Ok(i + 4)
    else Failed(IllegalWireType)
  }

  /** One iteration of the skip loop: the next index and the groups left open. */
  datatype SkipStep = Step(next: nat, inside: nat) | Stop(error: Error)

  function SkipOne(data: Bytes, i: nat, depth: nat): (r: SkipStep)
    ensures r.Step? ==> r.next > i
  {
    match Read(data, i)
    case Bad(e) => Stop(e)
    case Got(wire, j) =>
      if wire % 8 == 4 && depth == 0 then Stop(UnexpectedEndOfGroup) else
        match Payload(data, j, wire % 8)
        case Failed(e) => Stop(e)
        case Ok(next) =>
          Step(next, if wire % 8 == 3 then depth + 1 else if wire % 8 == 4 then depth - 1 else depth)
  }

  /** The skip loop, entered at `start`; the result is the index after the field. */
  function Skip(data: Bytes, start: nat, i: nat, depth: nat): (r: Passed)
    ensures r.Ok? ==> r.next > i
    decreases if i < |data| then |data| - i else 0
  {
    if i >= |data| then Failed(UnexpectedEof) else
      match SkipOne(data, i, depth)
      case Stop(e) => Failed(e)
      case Step(next, inside) =>
        if next - start > MAX_INT then Failed(InvalidLength)
        else if inside == 0 then Ok(next)
        else Skip(data, start, next, inside)
  }

  // ---------------------------------------------------------------------
  // Fields
  // ---------------------------------------------------------------------

  datatype Kind = NumberField | BytesField | UnknownField

  /** Which field numbers a message knows. */
  type Schema = int -> Kind

  datatype Event = Number(field: int, value: int) | Blob(field: int, content: Bytes)

  datatype Field = Field(events: seq<Event>, next: nat) | Refused(error: Error)

  function NumberAt(data: Bytes, i: nat, num: int): (f: Field)
    ensures f.Field? ==> i < f.next <= |data|
  {
    match Read(data, i)
    case Bad(e) => Refused(e)
    case Got(v, next) => Field([Number(num, ToInt64(v))], next)
  }

  function BlobAt(data: Bytes, i: nat, num: int): (f: Field)
    ensures f.Field? ==> i < f.next <= |data|
  {
    match Read(data, i)
    case Bad(e) => Refused(e)
    case Got(v, j) =>
      var length := ToInt64(v);
      if length < 0 || j + length > MAX_INT then Refused(InvalidLength)
      else if j + length > |data| then Refused(UnexpectedEof)
      else Field([Blob(num, data[j..j + length])], j + length)
  }

  function UnknownAt(data: Bytes, i: nat): (f: Field)
    ensures f.Field? ==> i < f.next <= |data|
  {
    match Skip(data, i, i, 0)
    case Failed(e) => Refused(e)
    case Ok(next) =>
      if next > MAX_INT then Refused(InvalidLength)
      else if next > |data| then Refused(UnexpectedEof)
      else Field([], next)
  }

  /** One iteration of an Unmarshal loop: it consumes at least one byte, or fails. */
  function NextField(schema: Schema, data: Bytes, i: nat): (f: Field)
    ensures f.Field? ==> i < f.next <= |data|
  {
    match Read(data, i)
    case Bad(e) => Refused(e)
    case Got(wire, j) =>
      var num, wireType := ToInt32(wire / 8), wire % 8;
      if wireType == 4 then Refused(EndGroupForNonGroup)
      else if num <= 0 then Refused(IllegalTag)
      else match schema(num)
        case NumberField => if wireType != 0 then Refused(WrongWireType) else NumberAt(data, j, num)
        case BytesField => if wireType != 2 then Refused(WrongWireType) else BlobAt(data, j, num)
        case UnknownField => UnknownAt(data, i)
  }

  datatype Parsed = Events(events: seq<Event>) | Rejected(error: Error)

  /** The Unmarshal loop from index `i`: the known fields in order of arrival. */
  function Parse(schema: Schema, data: Bytes, i: nat): Parsed
    decreases if i < |data| then |data| - i else 0
  {
    if i >= |data| then Events([]) else
      match NextField(schema, data, i)
      case Refused(e) => Rejected(e)
      case Field(events, next) =>
        match Parse(schema, data, next)
        case Rejected(e) => Rejected(e)
        case Events(rest) => Events(events + rest)
  }
}
