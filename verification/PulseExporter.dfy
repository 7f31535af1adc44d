/**
 The two messages of the pulse exporter: marshalling backwards into a buffer
 of the computed size, and unmarshalling.
 */
module PulseExporter {
  import opened Wire
  import opened WireTheorems

  datatype Response = Response(pulseNumber: int, prevPulseNumber: int, recordAmount: int)
  datatype Request = Request(pulseNumberFrom: int, prototypes: seq<Bytes>)

  datatype Result<T> = Success(value: T) | Failure(error: Error)

  predicate ValidResponse(m: Response) {
    IsInt64(m.pulseNumber) && IsInt64(m.prevPulseNumber) && IsInt64(m.recordAmount)
  }

  /** Int64 fields, and a size that a slice can have. */
  predicate ValidRequest(m: Request) {
    IsInt64(m.pulseNumberFrom) && |EncodeRequest(m)| <= MAX_INT
  }

  // ---------------------------------------------------------------------
  // The wire form
  // ---------------------------------------------------------------------

  function NumberBytes(tag: Byte, x: int): Bytes {
    if x == 0 || !IsInt64(x) then [] else [tag] + Varint(ToUint64(x))
  }

  function BlobBytes(p: Bytes): Bytes {
    [0x12] + (Varint(|p|) + p)
  }

  function BlobsBytes(ps: seq<Bytes>): Bytes {
    if ps == [] then [] else BlobBytes(ps[0]) + BlobsBytes(ps[1..])
  }

  function EncodeResponse(m: Response): Bytes {
    NumberBytes(0x08, m.pulseNumber) + (NumberBytes(0x10, m.prevPulseNumber) + NumberBytes(0x18, m.recordAmount))
  }

  function EncodeRequest(m: Request): Bytes {
    NumberBytes(0x08, m.pulseNumberFrom) + BlobsBytes(m.prototypes)
  }

  // ---------------------------------------------------------------------
  // Sizes
  // ---------------------------------------------------------------------

  function NumberSize(x: int): nat
    requires IsInt64(x)
  {
    if x == 0 then 0 else 1 + Sov(ToUint64(x))
  }

  function SizeResponse(m: Response): nat
    requires ValidResponse(m)
  {
    NumberSize(m.pulseNumber) + NumberSize(m.prevPulseNumber) + NumberSize(m.recordAmount)
  }

  lemma NumberSizeExact(tag: Byte, x: int)
    requires IsInt64(x)
    ensures NumberSize(x) == |NumberBytes(tag, x)|
  {
    SovIsLength(ToUint64(x));
  }

  /** The precomputed size is the size of the wire form. */
  lemma SizeResponseExact(m: Response)
    requires ValidResponse(m)
    ensures SizeResponse(m) == |EncodeResponse(m)|
  {
    NumberSizeExact(0x08, m.pulseNumber);
    NumberSizeExact(0x10, m.prevPulseNumber);
    NumberSizeExact(0x18, m.recordAmount);
  }

  lemma {:induction false} BlobsSnoc(ps: seq<Bytes>, p: Bytes)
    ensures BlobsBytes(ps + [p]) == BlobsBytes(ps) + BlobBytes(p)
  {
    if ps == [] {
      assert ps + [p] == [p] && [p][1..] == [];
      assert BlobBytes(p) + [] == BlobBytes(p);
    } else {
      assert (ps + [p])[0] == ps[0] && (ps + [p])[1..] == ps[1..] + [p];
      BlobsSnoc(ps[1..], p);
      var x, y, z := BlobBytes(ps[0]), BlobsBytes(ps[1..]), BlobBytes(p);
      assert x + (y + z) == (x + y) + z;
    }
  }

  method SizeRequest(m: Request) returns (n: nat)
    requires IsInt64(m.pulseNumberFrom)
    ensures n == |EncodeRequest(m)|
  {
    n := 0;
    NumberSizeExact(0x08, m.pulseNumberFrom);
    if m.pulseNumberFrom != 0 {
      n := n + 1 + Sov(ToUint64(m.pulseNumberFrom));
    }
    for i := 0 to |m.prototypes|
      invariant n == NumberSize(m.pulseNumberFrom) + |BlobsBytes(m.prototypes[..i])|
    {
      var l := |m.prototypes[i]|;
      SovIsLength(l);
      assert m.prototypes[..i + 1] == m.prototypes[..i] + [m.prototypes[i]];
      BlobsSnoc(m.prototypes[..i], m.prototypes[i]);
      n := n + 1 + l + Sov(l);
    }
    assert m.prototypes[..|m.prototypes|] == m.prototypes;
  }

  // ---------------------------------------------------------------------
  // Writing backwards
  // ---------------------------------------------------------------------

  lemma Associative(a: Bytes, b: Bytes, c: Bytes)
    ensures (a + b) + c == a + (b + c)
  {
  }

  lemma WrittenSoFar(done: Bytes, rest: nat, v: nat)
    requires rest >= 128 && done + Varint(rest) == Varint(v)
    ensures (done + [rest % 128 + 128]) + Varint(rest / 128) == Varint(v)
  {
    Associative(done, [rest % 128 + 128], Varint(rest / 128));
  }

  method EncodeVarint(buf: array<Byte>, offset: nat, v: nat) returns (base: nat)
    requires |Varint(v)| <= offset <= buf.Length
    modifies buf
    ensures base == offset - |Varint(v)|
    ensures buf[base..] == Varint(v) + old(buf[offset..])
  {
    SovIsLength(v);
    base := offset - Sov(v);
    var pos, rest := base, v;
    ghost var tail := buf[offset..];
    while rest >= 128
      invariant base <= pos && pos + |Varint(rest)| == offset
      invariant buf[base..pos] + Varint(rest) == Varint(v)
      invariant buf[offset..] == tail
      decreases rest
    {
      ghost var done := buf[base..pos];
      WrittenSoFar(done, rest, v);
      buf[pos] := rest % 128 + 128;
      rest := rest / 128;
      pos := pos + 1;
      assert buf[base..pos] == done + [buf[pos - 1]];
    }
    buf[pos] := rest;
    assert buf[base..offset] == buf[base..pos] + [buf[pos]];
    assert buf[base..] == buf[base..offset] + buf[offset..];
  }

  /** A tagged number in front of what is already written. */
  method WriteNumber(buf: array<Byte>, i: nat, tag: Byte, x: int) returns (j: nat)
    requires IsInt64(x) && |NumberBytes(tag, x)| <= i <= buf.Length
    modifies buf
    ensures j == i - |NumberBytes(tag, x)| && buf[j..] == NumberBytes(tag, x) + old(buf[i..])
  {
    j := i;
    if x != 0 {
      var u := ToUint64(x);
      ghost var tail := buf[i..];
      j := EncodeVarint(buf, i, u);
      ghost var written := buf[j..];
      j := j - 1;
      buf[j] := tag;
      assert buf[j..] == [tag] + written;
      Associative([tag], Varint(u), tail);
    }
  }

  method MarshalResponse(m: Response) returns (bytes: Bytes)
    requires ValidResponse(m)
    ensures bytes == EncodeResponse(m)
  {
    SizeResponseExact(m);
    NumberSizeExact(0x08, m.pulseNumber);
    NumberSizeExact(0x10, m.prevPulseNumber);
    NumberSizeExact(0x18, m.recordAmount);
    var buf := new Byte[SizeResponse(m)];
    var i := WriteNumber(buf, buf.Length, 0x18, m.recordAmount);
    i := WriteNumber(buf, i, 0x10, m.prevPulseNumber);
    i := WriteNumber(buf, i, 0x08, m.pulseNumber);
    bytes := buf[i..];
  }

  /** The loop over the byte strings, last one first. */
  method WriteBlobs(buf: array<Byte>, ps: seq<Bytes>) returns (i: nat)
    requires |BlobsBytes(ps)| <= buf.Length
    modifies buf
    ensures i == buf.Length - |BlobsBytes(ps)| && buf[i..] == BlobsBytes(ps)
  {
    i := buf.Length;
    var k := |ps|;
    while k > 0
      invariant 0 <= k <= |ps|
      invariant i == buf.Length - |BlobsBytes(ps[k..])| && buf[i..] == BlobsBytes(ps[k..])
    {
      k := k - 1;
      SuffixFits(ps, k);
      i := WriteBlob(buf, i, ps[k]);
    }
    assert ps[0..] == ps;
  }

  method WriteBlob(buf: array<Byte>, i: nat, p: Bytes) returns (j: nat)
    requires |BlobBytes(p)| <= i <= buf.Length
    modifies buf
    ensures j == i - |BlobBytes(p)| && buf[j..] == BlobBytes(p) + old(buf[i..])
  {
    ghost var tail := buf[i..];
    j := i - |p|;
    forall k | 0 <= k < |p| {
      buf[j + k] := p[k];
    }
    assert buf[j..] == p + tail;
    j := EncodeVarint(buf, j, |p|);
    ghost var written := buf[j..];
    j := j - 1;
    buf[j] := 0x12;
    assert buf[j..] == [0x12] + buf[j + 1..];
    assert buf[j + 1..] == written == Varint(|p|) + (p + tail);
    assert [0x12] + (Varint(|p|) + (p + tail)) == BlobBytes(p) + tail;
  }

  lemma {:induction false} SuffixFits(ps: seq<Bytes>, k: nat)
    requires k < |ps|
    ensures BlobsBytes(ps[k..]) == BlobBytes(ps[k]) + BlobsBytes(ps[k + 1..])
    ensures |BlobsBytes(ps[k..])| <= |BlobsBytes(ps)|
  {
    assert ps[k..][0] == ps[k] && ps[k..][1..] == ps[k + 1..];
    if k > 0 {
      SuffixFits(ps[1..], k - 1);
      assert ps[1..][k - 1..] == ps[k..];
    } else {
      assert ps[0..] == ps;
    }
  }

  method MarshalRequest(m: Request) returns (bytes: Bytes)
    requires ValidRequest(m)
    ensures bytes == EncodeRequest(m)
  {
    var size := SizeRequest(m);
    var buf := new Byte[size];
    var i := WriteBlobs(buf, m.prototypes);
    i := WriteNumber(buf, i, 0x08, m.pulseNumberFrom);
    bytes := buf[i..];
  }

  // ---------------------------------------------------------------------
  // Reading
  // ---------------------------------------------------------------------

  /** The varint loop: `shift` is 7 * k. */
  method ReadVarint(data: Bytes, start: nat) returns (r: ReadResult)
    ensures r == Read(data, start)
  {
    var i: nat, k: nat, value: nat := start, 0, 0;
    while true
      invariant k <= 10 && Read(data, start) == ReadFrom(data, i, k, value)
      decreases 10 - k
    {
      if k == 10 {
        return Bad(IntOverflow);
      }
      if i >= |data| {
        return Bad(UnexpectedEof);
      }
      var b := data[i];
      i := i + 1;
      value := value + Shifted(b % 128, k);
      if b < 128 {
        return Got(value, i);
      }
      k := k + 1;
    }
  }

  method PassPayload(data: Bytes, i: nat, wireType: nat) returns (r: Passed)
    ensures r == Payload(data, i, wireType)
  {
    if wireType == 0 || wireType == 2 {
      var v := ReadVarint(data, i);
      if v.Bad? {
        return Failed(v.error);
      }
      if wireType == 0 {
        return Ok(v.next);
      }
      var length := ToInt64(v.value);
      if length < 0 {
        return Failed(InvalidLength);
      }
      return Ok(v.next + length);
    }
    if wireType == 1 {
      return Ok(i + 8);
    }
    if wireType == 5 {
      return Ok(i + 4);
    }
    if wireType == 3 || wireType == 4 {
      return Ok(i);
    }
    return Failed(IllegalWireType);
  }

  method SkipUnknown(data: Bytes, start: nat) returns (r: Passed)
    ensures r == Skip(data, start, start, 0)
  {
    var i: nat, depth: nat := start, 0;
    while i < |data|
      invariant start <= i && Skip(data, start, start, 0) == Skip(data, start, i, depth)
      decreases if i < |data| then |data| - i else 0
    {
      ghost var one := SkipOne(data, i, depth);
      var wire := ReadVarint(data, i);
      if wire.Bad? {
        return Failed(wire.error);
      }
      var wireType := wire.value % 8;
      if wireType == 4 && depth == 0 {
        return Failed(UnexpectedEndOfGroup);
      }
      var next := PassPayload(data, wire.next, wireType);
      if next.Failed? {
        return next;
      }
      depth := if wireType == 3 then depth + 1 else if wireType == 4 then depth - 1 else depth;
      i := next.next;
      assert one == Step(i, depth);
      if i - start > MAX_INT {
        return Failed(InvalidLength);
      }
      if depth == 0 {
        return Ok(i);
      }
    }
    return Failed(UnexpectedEof);
  }

  /** One iteration of either Unmarshal loop. */
  method ReadField(schema: Schema, data: Bytes, i: nat) returns (f: Field)
    ensures f == NextField(schema, data, i)
  {
    var wire := ReadVarint(data, i);
    if wire.Bad? {
      return Refused(wire.error);
    }
    var num, wireType := ToInt32(wire.value / 8), wire.value % 8;
    if wireType == 4 {
      return Refused(EndGroupForNonGroup);
    }
    if num <= 0 {
      return Refused(IllegalTag);
    }
    match schema(num) {
      case NumberField =>
        if wireType != 0 {
          return Refused(WrongWireType);
        }
        var v := ReadVarint(data, wire.next);
        f := if v.Bad? then Refused(v.error) else Field([Number(num, ToInt64(v.value))], v.next);
      case BytesField =>
        if wireType != 2 {
          return Refused(WrongWireType);
        }
        f := ReadBlob(data, wire.next, num);
      case UnknownField =>
        var skipped := SkipUnknown(data, i);
        f := match skipped
          case Failed(e) => Refused(e)
          case Ok(next) =>
            if next > MAX_INT then Refused(InvalidLength)
            else if next > |data| then Refused(UnexpectedEof)
            else Field([], next);
    }
  }

  method ReadBlob(data: Bytes, i: nat, num: int) returns (f: Field)
    ensures f == BlobAt(data, i, num)
  {
    var v := ReadVarint(data, i);
    if v.Bad? {
      return Refused(v.error);
    }
    var length := ToInt64(v.value);
    if length < 0 || v.next + length > MAX_INT {
      return Refused(InvalidLength);
    }
    if v.next + length > |data| {
      return Refused(UnexpectedEof);
    }
    return Field([Blob(num, data[v.next..v.next + length])], v.next + length);
  }

  function ResponseSchema(): Schema {
    (num: int) => if 1 <= num <= 3 then NumberField else UnknownField
  }

  function RequestSchema(): Schema {
    (num: int) => if num == 1 then NumberField else if num == 2 then BytesField else UnknownField
  }

  function SetResponse(m: Response, e: Event): Response {
    match e
    case Number(1, v) => m.(pulseNumber := v)
    case Number(2, v) => m.(prevPulseNumber := v)
    case Number(3, v) => m.(recordAmount := v)
    case _ => m
  }

  function SetRequest(m: Request, e: Event): Request {
    match e
    case Number(1, v) => m.(pulseNumberFrom := v)
    case Blob(2, content) => m.(prototypes := m.prototypes + [content])
    case _ => m
  }

  function FillResponse(m: Response, es: seq<Event>): Response
    decreases es
  {
    if es == [] then m else FillResponse(SetResponse(m, es[0]), es[1..])
  }

  function FillRequest(m: Request, es: seq<Event>): Request
    decreases es
  {
    if es == [] then m else FillRequest(SetRequest(m, es[0]), es[1..])
  }

  /** What unmarshalling into an empty message returns. */
  function DecodeResponse(data: Bytes): Result<Response> {
    match Parse(ResponseSchema(), data, 0)
    case Rejected(e) => Failure(e)
    case Events(es) => Success(FillResponse(Response(0, 0, 0), es))
  }

  function DecodeRequest(data: Bytes): Result<Request> {
    match Parse(RequestSchema(), data, 0)
    case Rejected(e) => Failure(e)
    case Events(es) => Success(FillRequest(Request(0, []), es))
  }

  method UnmarshalResponse(data: Bytes) returns (r: Result<Response>)
    ensures r == DecodeResponse(data)
  {
    var m, i := Response(0, 0, 0), 0;
    while i < |data|
      invariant 0 <= i <= |data|
      invariant DecodeResponse(data) ==
        match Parse(ResponseSchema(), data, i)
        case Rejected(e) => Failure(e)
        case Events(es) => Success(FillResponse(m, es))
    {
      var f := ReadField(ResponseSchema(), data, i);
      if f.Refused? {
        return Failure(f.error);
      }
      ghost var rest := Parse(ResponseSchema(), data, f.next);
      if rest.Events? {
        FirstOfResponse(m, f.events, rest.events);
      }
      if |f.events| == 1 {
        m := SetResponse(m, f.events[0]);
      }
      i := f.next;
    }
    return Success(m);
  }

  lemma FirstOfResponse(m: Response, first: seq<Event>, rest: seq<Event>)
    requires |first| <= 1
    ensures FillResponse(m, first + rest) == FillResponse(if first == [] then m else SetResponse(m, first[0]), rest)
  {
    if first == [] {
      assert first + rest == rest;
    } else {
      assert (first + rest)[1..] == rest;
    }
  }

  lemma FirstOfRequest(m: Request, first: seq<Event>, rest: seq<Event>)
    requires |first| <= 1
    ensures FillRequest(m, first + rest) == FillRequest(if first == [] then m else SetRequest(m, first[0]), rest)
  {
    if first == [] {
      assert first + rest == rest;
    } else {
      assert (first + rest)[1..] == rest;
    }
  }

  method UnmarshalRequest(data: Bytes) returns (r: Result<Request>)
    ensures r == DecodeRequest(data)
  {
    var m, i := Request(0, []), 0;
    while i < |data|
      invariant 0 <= i <= |data|
      invariant DecodeRequest(data) ==
        match Parse(RequestSchema(), data, i)
        case Rejected(e) => Failure(e)
        case Events(es) => Success(FillRequest(m, es))
    {
      var f := ReadField(RequestSchema(), data, i);
      if f.Refused? {
        return Failure(f.error);
      }
      ghost var rest := Parse(RequestSchema(), data, f.next);
      if rest.Events? {
        FirstOfRequest(m, f.events, rest.events);
      }
      if |f.events| == 1 {
        m := SetRequest(m, f.events[0]);
      }
      i := f.next;
    }
    return Success(m);
  }

  // ---------------------------------------------------------------------
  // Repeated fields
  // ---------------------------------------------------------------------

  /** `v` is the value of the last number in field `field`, or 0 if there is none. */
  ghost predicate LastNumber(es: seq<Event>, field: int, v: int) {
    if exists i, x :: 0 <= i < |es| && es[i] == Number(field, x)
    then exists i :: 0 <= i < |es| && es[i] == Number(field, v)
           && forall j, x :: i < j < |es| ==> es[j] != Number(field, x)
    else v == 0
  }

  lemma {:induction false} LastNumberSnoc(es: seq<Event>, e: Event, field: int, v: int)
    requires LastNumber(es, field, v)
    ensures LastNumber(es + [e], field, if e.Number? && e.field == field then e.value else v)
  {
    var all := es + [e];
    if e.Number? && e.field == field {
      assert all[|es|] == Number(field, e.value);
    } else if i, x :| 0 <= i < |es| && es[i] == Number(field, x) {
      var k :| 0 <= k < |es| && es[k] == Number(field, v) && forall j, x :: k < j < |es| ==> es[j] != Number(field, x);
      assert all[k] == Number(field, v);
    }
  }

  lemma {:induction false} FillResponseSnoc(m: Response, es: seq<Event>, e: Event)
    ensures FillResponse(m, es + [e]) == SetResponse(FillResponse(m, es), e)
    decreases es
  {
    if es == [] {
      assert ([] + [e])[1..] == [];
    } else {
      assert (es + [e])[0] == es[0] && (es + [e])[1..] == es[1..] + [e];
      FillResponseSnoc(SetResponse(m, es[0]), es[1..], e);
    }
  }

  lemma {:induction false} FillRequestSnoc(m: Request, es: seq<Event>, e: Event)
    ensures FillRequest(m, es + [e]) == SetRequest(FillRequest(m, es), e)
    decreases es
  {
    if es == [] {
      assert ([] + [e])[1..] == [];
    } else {
      assert (es + [e])[0] == es[0] && (es + [e])[1..] == es[1..] + [e];
      FillRequestSnoc(SetRequest(m, es[0]), es[1..], e);
    }
  }

  /** Of each number field the last value counts; a missing field is 0. */
  lemma {:induction false} LastOneWins(es: seq<Event>)
    ensures var m := FillResponse(Response(0, 0, 0), es);
      LastNumber(es, 1, m.pulseNumber) && LastNumber(es, 2, m.prevPulseNumber) && LastNumber(es, 3, m.recordAmount)
    ensures LastNumber(es, 1, FillRequest(Request(0, []), es).pulseNumberFrom)
  {
    if es != [] {
      var n := |es| - 1;
      var before, e := es[..n], es[n];
      assert es == before + [e];
      LastOneWins(before);
      var m := FillResponse(Response(0, 0, 0), before);
      FillResponseSnoc(Response(0, 0, 0), before, e);
      FillRequestSnoc(Request(0, []), before, e);
      LastNumberSnoc(before, e, 1, m.pulseNumber);
      LastNumberSnoc(before, e, 2, m.prevPulseNumber);
      LastNumberSnoc(before, e, 3, m.recordAmount);
      LastNumberSnoc(before, e, 1, FillRequest(Request(0, []), before).pulseNumberFrom);
    }
  }

  /** The byte strings of field 2, in order. */
  ghost function Blobs(es: seq<Event>): seq<Bytes> {
    if es == [] then [] else
      var e := es[|es| - 1];
      Blobs(es[..|es| - 1]) + if e.Blob? && e.field == 2 then [e.content] else []
  }

  /** Of the repeated field all values are kept, in order. */
  lemma {:induction false} AllBlobsKept(es: seq<Event>)
    ensures FillRequest(Request(0, []), es).prototypes == Blobs(es)
  {
    if es != [] {
      var n := |es| - 1;
      assert es == es[..n] + [es[n]];
      AllBlobsKept(es[..n]);
      FillRequestSnoc(Request(0, []), es[..n], es[n]);
    }
  }

  // ---------------------------------------------------------------------
  // Round trips
  // ---------------------------------------------------------------------

  function NumberItems(tag: Byte, x: int): seq<Item> {
    if x == 0 || !IsInt64(x) then [] else [KnownNumber([tag], Varint(ToUint64(x)))]
  }

  function BlobItems(ps: seq<Bytes>): seq<Item> {
    if ps == [] then [] else [KnownBlob([0x12], Varint(|ps[0]|), ps[0])] + BlobItems(ps[1..])
  }

  function ResponseItems(m: Response): seq<Item> {
    NumberItems(0x08, m.pulseNumber) + (NumberItems(0x10, m.prevPulseNumber) + NumberItems(0x18, m.recordAmount))
  }

  function RequestItems(m: Request): seq<Item> {
    NumberItems(0x08, m.pulseNumberFrom) + BlobItems(m.prototypes)
  }

  /** A one-byte tag. */
  lemma SmallTag(tag: Byte)
    requires tag < 128
    ensures IsVarint([tag]) && Value([tag]) == tag
    ensures FieldNumber([tag]) == tag / 8
  {
    assert [tag][1..] == [];
    assert ValueFrom([], 1, tag) == tag && Shifted(tag % 128, 0) == tag;
  }

  lemma OneItem(schema: Schema, x: Item)
    ensures EmitItems([x]) == EmitItem(x) && AllEvents([x]) == EventsOf(x)
    ensures Legal(schema, x) ==> AllLegal(schema, [x])
  {
    assert [x][1..] == [];
    assert EmitItems([]) == [] && AllEvents([]) == [] && AllLegal(schema, []);
    assert EmitItem(x) + [] == EmitItem(x) && EventsOf(x) + [] == EventsOf(x);
  }

  lemma NumberItem(schema: Schema, tag: Byte, x: int)
    requires tag < 128 && tag % 8 == 0 && tag / 8 > 0 && schema(tag / 8) == NumberField && IsInt64(x)
    ensures var item := KnownNumber([tag], Varint(ToUint64(x)));
      Legal(schema, item) && EventsOf(item) == [Number(tag / 8, x)]
  {
    NumberTagFits(schema, tag);
    WrittenVarint(ToUint64(x));
    BackToInt64(x);
  }

  lemma NumberTagFits(schema: Schema, tag: Byte)
    requires tag < 128 && tag % 8 == 0 && tag / 8 > 0 && schema(tag / 8) == NumberField
    ensures IsTag([tag], 0) && Fits(schema, [tag], NumberField) && FieldNumber([tag]) == tag / 8
  {
    SmallTag(tag);
  }

  lemma BackToInt64(x: int)
    requires IsInt64(x)
    ensures ToInt64(ToUint64(x)) == x
  {
  }

  lemma NumberItemsWire(schema: Schema, tag: Byte, x: int)
    requires tag < 128 && tag % 8 == 0 && tag / 8 > 0 && schema(tag / 8) == NumberField
    ensures EmitItems(NumberItems(tag, x)) == NumberBytes(tag, x) && AllLegal(schema, NumberItems(tag, x))
    ensures AllEvents(NumberItems(tag, x)) == if x == 0 || !IsInt64(x) then [] else [Number(tag / 8, x)]
  {
    if x != 0 && IsInt64(x) {
      NumberItem(schema, tag, x);
      OneItem(schema, KnownNumber([tag], Varint(ToUint64(x))));
    }
  }

  lemma {:induction false} BlobItemsWire(ps: seq<Bytes>)
    requires |BlobsBytes(ps)| <= MAX_INT
    ensures EmitItems(BlobItems(ps)) == BlobsBytes(ps) && AllLegal(RequestSchema(), BlobItems(ps))
  {
    if ps != [] {
      var x := KnownBlob([0x12], Varint(|ps[0]|), ps[0]);
      BlobItemsWire(ps[1..]);
      assert BlobItems(ps)[0] == x && BlobItems(ps)[1..] == BlobItems(ps[1..]);
      SmallTag(0x12);
      WrittenVarint(|ps[0]|);
      assert Legal(RequestSchema(), x);
    }
  }

  ghost function BlobEvents(ps: seq<Bytes>): seq<Event> {
    if ps == [] then [] else [Blob(2, ps[0])] + BlobEvents(ps[1..])
  }

  lemma {:induction false} BlobItemsEvents(ps: seq<Bytes>)
    ensures AllEvents(BlobItems(ps)) == BlobEvents(ps)
  {
    if ps != [] {
      BlobItemsEvents(ps[1..]);
      assert BlobItems(ps)[1..] == BlobItems(ps[1..]);
      SmallTag(0x12);
    }
  }

  lemma FillOne(m: Request, p: Bytes, rest: seq<Event>)
    ensures FillRequest(m, [Blob(2, p)] + rest) == FillRequest(Request(m.pulseNumberFrom, m.prototypes + [p]), rest)
  {
    FirstOfRequest(m, [Blob(2, p)], rest);
  }

  lemma {:induction false} FillBlobs(from: int, before: seq<Bytes>, ps: seq<Bytes>)
    ensures FillRequest(Request(from, before), BlobEvents(ps)) == Request(from, before + ps)
    decreases ps
  {
    if ps == [] {
      assert before + [] == before;
    } else {
      FillOne(Request(from, before), ps[0], BlobEvents(ps[1..]));
      FillBlobs(from, before + [ps[0]], ps[1..]);
      assert (before + [ps[0]]) + ps[1..] == before + ps;
    }
  }

  ghost function NumberEvents(field: int, x: int): seq<Event> {
    if x == 0 then [] else [Number(field, x)]
  }

  lemma ResponseWire(m: Response)
    requires ValidResponse(m)
    ensures EmitItems(ResponseItems(m)) == EncodeResponse(m) && AllLegal(ResponseSchema(), ResponseItems(m))
    ensures AllEvents(ResponseItems(m)) ==
      NumberEvents(1, m.pulseNumber) + (NumberEvents(2, m.prevPulseNumber) + NumberEvents(3, m.recordAmount))
  {
    var a, b := NumberItems(0x08, m.pulseNumber), NumberItems(0x10, m.prevPulseNumber);
    var c := NumberItems(0x18, m.recordAmount);
    NumberItemsWire(ResponseSchema(), 0x08, m.pulseNumber);
    NumberItemsWire(ResponseSchema(), 0x10, m.prevPulseNumber);
    NumberItemsWire(ResponseSchema(), 0x18, m.recordAmount);
    EmitConcat(b, c);
    EmitConcat(a, b + c);
    EventsConcat(b, c);
    EventsConcat(a, b + c);
    LegalConcat(ResponseSchema(), b, c);
    LegalConcat(ResponseSchema(), a, b + c);
  }

  lemma FillNumber(m: Response, field: int, x: int, rest: seq<Event>)
    ensures FillResponse(m, NumberEvents(field, x) + rest) ==
      FillResponse(if x == 0 then m else SetResponse(m, Number(field, x)), rest)
  {
    FirstOfResponse(m, NumberEvents(field, x), rest);
  }

  lemma FillAll(m: Response)
    ensures FillResponse(Response(0, 0, 0),
      NumberEvents(1, m.pulseNumber) + (NumberEvents(2, m.prevPulseNumber) + NumberEvents(3, m.recordAmount))) == m
  {
    var third := NumberEvents(3, m.recordAmount);
    FillNumber(Response(0, 0, 0), 1, m.pulseNumber, NumberEvents(2, m.prevPulseNumber) + third);
    FillNumber(Response(m.pulseNumber, 0, 0), 2, m.prevPulseNumber, third);
    FillNumber(Response(m.pulseNumber, m.prevPulseNumber, 0), 3, m.recordAmount, []);
    assert third + [] == third;
  }

  lemma ResponseFits(m: Response)
    requires ValidResponse(m)
    ensures |EncodeResponse(m)| <= 33
  {
    TenBytes(ToUint64(m.pulseNumber));
    TenBytes(ToUint64(m.prevPulseNumber));
    TenBytes(ToUint64(m.recordAmount));
  }

  /** Unmarshalling a marshalled response gives it back, negative numbers included. */
  lemma ResponseRoundTrip(m: Response)
    requires ValidResponse(m)
    ensures DecodeResponse(EncodeResponse(m)) == Success(m)
  {
    ResponseWire(m);
    ResponseFits(m);
    ParseMessage(ResponseSchema(), ResponseItems(m));
    FillAll(m);
  }

  lemma RequestWire(m: Request)
    requires ValidRequest(m)
    ensures EmitItems(RequestItems(m)) == EncodeRequest(m) && AllLegal(RequestSchema(), RequestItems(m))
    ensures AllEvents(RequestItems(m)) == NumberEvents(1, m.pulseNumberFrom) + BlobEvents(m.prototypes)
  {
    NumberItemsWire(RequestSchema(), 0x08, m.pulseNumberFrom);
    BlobItemsWire(m.prototypes);
    BlobItemsEvents(m.prototypes);
    var a, b := NumberItems(0x08, m.pulseNumberFrom), BlobItems(m.prototypes);
    EmitConcat(a, b);
    EventsConcat(a, b);
    LegalConcat(RequestSchema(), a, b);
  }

  lemma FillWhole(m: Request)
    ensures FillRequest(Request(0, []), NumberEvents(1, m.pulseNumberFrom) + BlobEvents(m.prototypes)) == m
  {
    FirstOfRequest(Request(0, []), NumberEvents(1, m.pulseNumberFrom), BlobEvents(m.prototypes));
    FillBlobs(m.pulseNumberFrom, [], m.prototypes);
    assert [] + m.prototypes == m.prototypes;
  }

  /** Unmarshalling a marshalled request gives back its number and all byte strings in order. */
  lemma RequestRoundTrip(m: Request)
    requires ValidRequest(m)
    ensures DecodeRequest(EncodeRequest(m)) == Success(m)
  {
    RequestWire(m);
    ParseMessage(RequestSchema(), RequestItems(m));
    FillWhole(m);
  }

  /** An unknown field, groups included, put between the fields of a response is ignored. */
  lemma ResponseIgnoresUnknown(m: Response, k: nat, w: WireField)
    requires ValidResponse(m) && k <= |ResponseItems(m)|
    requires WellFormed(w) && FieldNumber(w.tag) > 3 && |EncodeResponse(m)| + |Emit(w)| <= MAX_INT
    ensures var a, b := EmitItems(ResponseItems(m)[..k]), EmitItems(ResponseItems(m)[k..]);
      a + b == EncodeResponse(m) && DecodeResponse(a + Emit(w) + b) == Success(m)
  {
    var items := ResponseItems(m);
    var a, b := items[..k], items[k..];
    assert a + b == items;
    ResponseWire(m);
    EmitConcat(a, b);
    LegalSplit(ResponseSchema(), a, b);
    InsertUnknown(ResponseSchema(), a, w, b);
    FillAll(m);
  }

  /** The same for a request. */
  lemma RequestIgnoresUnknown(m: Request, k: nat, w: WireField)
    requires ValidRequest(m) && k <= |RequestItems(m)|
    requires WellFormed(w) && FieldNumber(w.tag) > 2 && |EncodeRequest(m)| + |Emit(w)| <= MAX_INT
    ensures var a, b := EmitItems(RequestItems(m)[..k]), EmitItems(RequestItems(m)[k..]);
      a + b == EncodeRequest(m) && DecodeRequest(a + Emit(w) + b) == Success(m)
  {
    var items := RequestItems(m);
    var a, b := items[..k], items[k..];
    assert a + b == items;
    RequestWire(m);
    EmitConcat(a, b);
    LegalSplit(RequestSchema(), a, b);
    InsertUnknown(RequestSchema(), a, w, b);
    FillWhole(m);
  }

  lemma {:induction false} LegalSplit(schema: Schema, a: seq<Item>, b: seq<Item>)
    requires AllLegal(schema, a + b)
    ensures AllLegal(schema, a) && AllLegal(schema, b)
  {
    if a == [] {
      assert a + b == b;
    } else {
      assert (a + b)[0] == a[0] && (a + b)[1..] == a[1..] + b;
      LegalSplit(schema, a[1..], b);
    }
  }
}
