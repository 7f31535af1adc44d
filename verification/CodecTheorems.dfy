/** Reading back varints and fields, known and unknown. */
module WireTheorems {
  import opened Common
  import opened Wire

  // ---------------------------------------------------------------------
  // Sizes
  // ---------------------------------------------------------------------

  lemma SevenBits(x: nat)
    requires x >= 128
    ensures BitLength(x) == 7 + BitLength(x / 128)
  {
    var a, b := x / 2, x / 4;
    assert a / 2 == b;
    var c, d := x / 8, x / 16;
    assert b / 2 == c && c / 2 == d;
    var e, f := x / 32, x / 64;
    assert d / 2 == e && e / 2 == f && f / 2 == x / 128;
    assert BitLength(x) == 1 + BitLength(a) && BitLength(a) == 1 + BitLength(b) && BitLength(b) == 1 + BitLength(c);
    assert BitLength(c) == 1 + BitLength(d) && BitLength(d) == 1 + BitLength(e);
    assert BitLength(e) == 1 + BitLength(f) && BitLength(f) == 1 + BitLength(x / 128);
  }

  lemma {:induction false} BitLengthBound(x: nat, n: nat, p: nat)
    requires x < p && p == Pow2(n)
    ensures BitLength(x) <= n
    decreases n
  {
    if x > 0 {
      BitLengthBound(x / 2, n - 1, p / 2);
    }
  }

  function Pow(b: nat, n: nat): nat {
    if n == 0 then 1 else b * Pow(b, n - 1)
  }

  /** The closed formula is the number of bytes written. */
  lemma {:induction false} SovIsLength(v: nat)
    ensures Sov(v) == |Varint(v)|
  {
    if v < 128 {
      assert Pow2(4) == 16 && Pow2(7) == 128;
      BitLengthBound(SetLowBit(v), 7, 128);
      assert BitLength(SetLowBit(v)) >= 1;
    } else {
      SovIsLength(v / 128);
      SevenBits(v);
    }
  }

  lemma {:induction false} VarintBound(v: nat, n: nat)
    requires v < Pow(128, n) && n >= 1
    ensures |Varint(v)| <= n
    decreases n
  {
    if v >= 128 {
      assert n > 1;
      VarintBound(v / 128, n - 1);
    }
  }

  /** No 64-bit value needs more than ten bytes. */
  lemma TenBytes(v: nat)
    requires v < TWO64
    ensures |Varint(v)| <= 10
  {
    assert Pow(128, 2) == 0x4000;
    assert Pow(128, 4) == 0x1000_0000;
    assert Pow(128, 6) == 0x400_0000_0000;
    assert Pow(128, 8) == 0x100_0000_0000_0000;
    assert Pow(128, 10) == 0x40_0000_0000_0000_0000;
    VarintBound(v, 10);
  }

  // ---------------------------------------------------------------------
  // Reading varints
  // ---------------------------------------------------------------------

  /** `bs` stands at index `i` of `data`. */
  ghost predicate At(data: Bytes, i: nat, bs: Bytes) {
    i + |bs| <= |data| && forall k :: 0 <= k < |bs| ==> data[i + k] == bs[k]
  }

  lemma AtConcat(data: Bytes, i: nat, a: Bytes, b: Bytes)
    requires At(data, i, a + b)
    ensures At(data, i, a) && At(data, i + |a|, b)
  {
    forall k | 0 <= k < |a| ensures data[i + k] == a[k] {
      assert (a + b)[k] == a[k];
    }
    forall k | 0 <= k < |b| ensures data[i + |a| + k] == b[k] {
      assert (a + b)[|a| + k] == b[k];
    }
  }

  /** Continuation bytes and one final byte, ten at most from byte `k` on. */
  ghost predicate Terminated(bs: Bytes, k: nat) {
    1 <= |bs| && k + |bs| <= 10 && if |bs| == 1 then bs[0] < 128 else bs[0] >= 128 && Terminated(bs[1..], k + 1)
  }

  ghost function ValueFrom(bs: Bytes, k: nat, acc: nat): nat {
    if bs == [] then acc else ValueFrom(bs[1..], k + 1, acc + Shifted(bs[0] % 128, k))
  }

  /** A varint is read to its final byte, whatever surrounds it. */
  lemma {:induction false} ReadTerminated(data: Bytes, i: nat, bs: Bytes, k: nat, acc: nat)
    requires Terminated(bs, k) && At(data, i, bs)
    ensures ReadFrom(data, i, k, acc) == Got(ValueFrom(bs, k, acc), i + |bs|)
    decreases |bs|
  {
    if |bs| == 1 {
      assert bs[1..] == [];
    } else {
      ReadTerminated(data, i + 1, bs[1..], k + 1, acc + Shifted(bs[0] % 128, k));
    }
  }

  /** The bytes that end reading are the ones a varint may not have. */
  ghost predicate Continuing(data: Bytes, i: nat, n: nat) {
    i + n <= |data| && forall j :: i <= j < i + n ==> data[j] >= 128
  }

  lemma {:induction false} ReadEnds(data: Bytes, i: nat, k: nat, acc: nat, n: nat)
    requires k + n <= 10 && Continuing(data, i, n)
    ensures k + n == 10 ==> ReadFrom(data, i, k, acc) == Bad(IntOverflow)
    ensures k + n < 10 && i + n >= |data| ==> ReadFrom(data, i, k, acc) == Bad(UnexpectedEof)
    decreases n
  {
    if n > 0 {
      ReadEnds(data, i + 1, k + 1, acc + Shifted(data[i] % 128, k), n - 1);
    }
  }

  /** Ten bytes that all ask for another overflow; fewer, up to the end of the data, are cut off. */
  lemma UnreadableVarint(data: Bytes, i: nat, n: nat)
    requires n <= 10 && Continuing(data, i, n) && (n < 10 ==> i + n >= |data|)
    ensures Read(data, i) == Bad(if n == 10 then IntOverflow else UnexpectedEof)
  {
    ReadEnds(data, i, 0, 0, n);
  }

  /** A shift by whole groups of seven bits, cut off at 64 bits. */
  lemma {:induction false} ShiftedMeaning(bits: nat, k: nat)
    ensures k > 0 ==> Shifted(bits, k) == bits * Pow(128, k) % TWO64
    ensures k == 0 ==> Shifted(bits, k) == bits
  {
    if k > 0 {
      var p := Pow(128, k - 1);
      ShiftedMeaning(bits, k - 1);
      Regroup(bits, p);
      if k > 1 {
        TimesModulo(128, bits * p);
      }
    }
  }

  lemma TimesModulo(a: nat, x: nat)
    ensures a * (x % TWO64) % TWO64 == a * x % TWO64
  {
    var q, r := x / TWO64, x % TWO64;
    assert x == TWO64 * q + r;
    assert a * x == TWO64 * (a * q) + a * r;
    AddMultiple(a * r, a * q);
  }

  lemma AddMultiple(r: nat, q: nat)
    ensures (TWO64 * q + r) % TWO64 == r % TWO64
  {
  }

  lemma FirstByte(v: nat)
    ensures Varint(v)[0] % 128 == v % 128 && (Varint(v)[0] < 128 <==> v < 128)
    ensures Varint(v)[1..] == if v < 128 then [] else Varint(v / 128)
  {
  }

  lemma {:induction false} VarintTerminated(v: nat, k: nat)
    requires k + |Varint(v)| <= 10
    ensures Terminated(Varint(v), k)
    decreases v
  {
    FirstByte(v);
    if v >= 128 {
      VarintTerminated(v / 128, k + 1);
    }
  }

  lemma Regroup(a: nat, p: nat)
    ensures a * (128 * p) == 128 * (a * p) && a * p >= 0
  {
  }

  lemma {:induction false} ShiftedExact(bits: nat, k: nat)
    requires bits * Pow(128, k) < TWO64
    ensures Shifted(bits, k) == bits * Pow(128, k)
  {
    if k > 0 {
      var p := Pow(128, k - 1);
      assert Pow(128, k) == 128 * p;
      Regroup(bits, p);
      var x := bits * p;
      assert 128 * x < TWO64;
      ShiftedExact(bits, k - 1);
      assert Shifted(bits, k) == 128 * x % TWO64;
    }
  }

  lemma Digits(v: nat, unit: nat)
    ensures v % 128 * unit + v / 128 * (128 * unit) == v * unit
    ensures v % 128 * unit <= v * unit
  {
    var q, r := v / 128, v % 128;
    assert v == 128 * q + r;
    assert v * unit == (128 * q) * unit + r * unit;
    assert (128 * q) * unit == q * (128 * unit);
    assert q * (128 * unit) >= 0;
  }

  lemma {:induction false} ValueCanonical(v: nat, k: nat, acc: nat)
    requires v * Pow(128, k) < TWO64
    ensures ValueFrom(Varint(v), k, acc) == acc + v * Pow(128, k)
    decreases v
  {
    var unit := Pow(128, k);
    assert Pow(128, k + 1) == 128 * unit;
    FirstByte(v);
    Digits(v, unit);
    ShiftedExact(v % 128, k);
    if v >= 128 {
      ValueCanonical(v / 128, k + 1, acc + v % 128 * unit);
    }
  }

  ghost predicate IsVarint(bs: Bytes) {
    Terminated(bs, 0)
  }

  ghost function Value(bs: Bytes): nat {
    ValueFrom(bs, 0, 0)
  }

  lemma ReadAt(data: Bytes, i: nat, bs: Bytes)
    requires IsVarint(bs) && At(data, i, bs)
    ensures Read(data, i) == Got(Value(bs), i + |bs|)
  {
    ReadTerminated(data, i, bs, 0, 0);
  }

  /** What the writer writes is a varint of that value. */
  lemma WrittenVarint(v: nat)
    requires v < TWO64
    ensures IsVarint(Varint(v)) && Value(Varint(v)) == v
  {
    TenBytes(v);
    VarintTerminated(v, 0);
    assert Pow(128, 0) == 1;
    ValueCanonical(v, 0, 0);
  }

  // ---------------------------------------------------------------------
  // Unknown fields
  // ---------------------------------------------------------------------

  /** A well-formed field as bytes; tags and numbers may use any legal varint. */
  datatype WireField =
    | WVarint(tag: Bytes, number: Bytes)
    | WFixed64(tag: Bytes, payload: Bytes)
    | WBytes(tag: Bytes, length: Bytes, payload: Bytes)
    | WGroup(tag: Bytes, body: seq<WireField>, end: Bytes)
    | WFixed32(tag: Bytes, payload: Bytes)

  ghost predicate IsTag(bs: Bytes, wireType: nat) {
    IsVarint(bs) && Value(bs) % 8 == wireType
  }

  function Emit(w: WireField): Bytes
    decreases w, 1
  {
    match w
    case WVarint(tag, number) => tag + number
    case WFixed64(tag, payload) => tag + payload
    case WBytes(tag, length, payload) => tag + (length + payload)
    case WGroup(tag, body, end) => tag + (EmitAll(body) + end)
    case WFixed32(tag, payload) => tag + payload
  }

  function EmitAll(ws: seq<WireField>): Bytes
    decreases ws, 0
  {
    if ws == [] then [] else Emit(ws[0]) + EmitAll(ws[1..])
  }

  ghost predicate WellFormed(w: WireField)
    decreases w, 1
  {
    match w
    case WVarint(tag, number) => IsTag(tag, 0) && IsVarint(number)
    case WFixed64(tag, payload) => IsTag(tag, 1) && |payload| == 8
    case WBytes(tag, length, payload) =>
      IsTag(tag, 2) && IsVarint(length) && ToInt64(Value(length)) == |payload|
    case WGroup(tag, body, end) => IsTag(tag, 3) && WellFormedAll(body) && IsTag(end, 4)
    case WFixed32(tag, payload) => IsTag(tag, 5) && |payload| == 4
  }

  ghost predicate WellFormedAll(ws: seq<WireField>)
    decreases ws, 0
  {
    ws != [] ==> WellFormed(ws[0]) && WellFormedAll(ws[1..])
  }

  lemma PayloadVarint(data: Bytes, i: nat, number: Bytes)
    requires IsVarint(number) && At(data, i, number)
    ensures Payload(data, i, 0) == Ok(i + |number|)
  {
    ReadAt(data, i, number);
  }

  lemma PayloadBytes(data: Bytes, i: nat, length: Bytes, n: nat)
    requires IsVarint(length) && ToInt64(Value(length)) == n && At(data, i, length)
    ensures Payload(data, i, 2) == Ok(i + |length| + n)
  {
    ReadAt(data, i, length);
  }

  lemma StepOver(data: Bytes, i: nat, tag: Bytes, next: nat, depth: nat)
    requires IsVarint(tag) && At(data, i, tag) && Value(tag) % 8 != 3 && Value(tag) % 8 != 4
    requires Payload(data, i + |tag|, Value(tag) % 8) == Ok(next)
    ensures SkipOne(data, i, depth) == Step(next, depth)
  {
    ReadAt(data, i, tag);
  }

  lemma SkipNumber(data: Bytes, i: nat, tag: Bytes, number: Bytes, depth: nat)
    requires IsTag(tag, 0) && IsVarint(number) && At(data, i, tag + number)
    ensures SkipOne(data, i, depth) == Step(i + |tag| + |number|, depth)
  {
    AtConcat(data, i, tag, number);
    PayloadVarint(data, i + |tag|, number);
    StepOver(data, i, tag, i + |tag| + |number|, depth);
  }

  lemma SkipBytes(data: Bytes, i: nat, tag: Bytes, length: Bytes, payload: Bytes, depth: nat)
    requires IsTag(tag, 2) && IsVarint(length) && ToInt64(Value(length)) == |payload|
    requires At(data, i, tag + (length + payload))
    ensures SkipOne(data, i, depth) == Step(i + |tag| + |length| + |payload|, depth)
  {
    AtConcat(data, i, tag, length + payload);
    AtConcat(data, i + |tag|, length, payload);
    PayloadBytes(data, i + |tag|, length, |payload|);
    StepOver(data, i, tag, i + |tag| + |length| + |payload|, depth);
  }

  lemma SkipFixed(data: Bytes, i: nat, tag: Bytes, payload: Bytes, depth: nat)
    requires (IsTag(tag, 1) && |payload| == 8) || (IsTag(tag, 5) && |payload| == 4)
    requires At(data, i, tag + payload)
    ensures SkipOne(data, i, depth) == Step(i + |tag| + |payload|, depth)
  {
    AtConcat(data, i, tag, payload);
    StepOver(data, i, tag, i + |tag| + |payload|, depth);
  }

  /** One plain (non-group) field is passed in one iteration. */
  lemma SkipPlain(data: Bytes, i: nat, w: WireField, depth: nat, end: nat)
    requires WellFormed(w) && !w.WGroup? && At(data, i, Emit(w)) && end == i + |Emit(w)|
    ensures SkipOne(data, i, depth) == Step(end, depth)
  {
    match w
    case WVarint(tag, number) => SkipNumber(data, i, tag, number, depth);
    case WBytes(tag, length, payload) => SkipBytes(data, i, tag, length, payload, depth);
    case WFixed64(tag, payload) => SkipFixed(data, i, tag, payload, depth);
    case WFixed32(tag, payload) => SkipFixed(data, i, tag, payload, depth);
  }

  lemma GroupTag(data: Bytes, i: nat, tag: Bytes, wireType: nat, depth: nat)
    requires (wireType == 3 || (wireType == 4 && depth > 0)) && IsTag(tag, wireType) && At(data, i, tag)
    ensures SkipOne(data, i, depth) == Step(i + |tag|, if wireType == 3 then depth + 1 else depth - 1)
  {
    ReadAt(data, i, tag);
  }

  /** What is left to do at index `i` with `depth` groups open. */
  ghost function SkipRest(data: Bytes, start: nat, i: nat, depth: nat): Passed {
    if depth == 0 then Ok(i) else Skip(data, start, i, depth)
  }

  lemma EmitNonEmpty(w: WireField)
    requires WellFormed(w)
    ensures |Emit(w)| >= 1
  {
  }

  /** A whole field, nested groups included, is passed at any depth. */
  lemma {:induction false} SkipField(data: Bytes, start: nat, i: nat, w: WireField, depth: nat, end: nat)
    requires WellFormed(w) && At(data, i, Emit(w)) && |data| <= MAX_INT && end == i + |Emit(w)|
    ensures Skip(data, start, i, depth) == SkipRest(data, start, end, depth)
    decreases w, 1
  {
    EmitNonEmpty(w);
    if w.WGroup? {
      var j := i + |w.tag|;
      var k := j + |EmitAll(w.body)|;
      GroupParts(data, i, w, j, k);
      SkipGroup(data, start, i, w.tag, w.body, w.end, depth, j, k, end);
    } else {
      SkipPlain(data, i, w, depth, end);
    }
  }

  lemma {:induction false} SkipGroup(
    data: Bytes, start: nat, i: nat, tag: Bytes, body: seq<WireField>, close: Bytes, depth: nat,
    j: nat, k: nat, end: nat)
    requires IsTag(tag, 3) && WellFormedAll(body) && IsTag(close, 4) && |data| <= MAX_INT
    requires j == i + |tag| && k == j + |EmitAll(body)| && end == k + |close| && |tag| >= 1 && |close| >= 1
    requires At(data, i, tag) && At(data, j, EmitAll(body)) && At(data, k, close)
    ensures Skip(data, start, i, depth) == SkipRest(data, start, end, depth)
    decreases body, 1
  {
    SkipFields(data, start, j, body, depth + 1, k);
    SkipBrackets(data, start, i, tag, close, depth, j, k, end);
  }

  /** If the body of a group is passed, so is the group. */
  lemma SkipBrackets(
    data: Bytes, start: nat, i: nat, tag: Bytes, close: Bytes, depth: nat, j: nat, k: nat, end: nat)
    requires IsTag(tag, 3) && IsTag(close, 4) && At(data, i, tag) && At(data, k, close)
    requires i < j == i + |tag| <= k < end == k + |close| <= |data| <= MAX_INT
    requires Skip(data, start, j, depth + 1) == Skip(data, start, k, depth + 1)
    ensures Skip(data, start, i, depth) == SkipRest(data, start, end, depth)
  {
    GroupTag(data, i, tag, 3, depth);
    GroupTag(data, k, close, 4, depth + 1);
  }

  lemma GroupParts(data: Bytes, i: nat, w: WireField, j: nat, k: nat)
    requires WellFormed(w) && w.WGroup? && At(data, i, Emit(w))
    requires j == i + |w.tag| && k == j + |EmitAll(w.body)|
    ensures At(data, i, w.tag) && At(data, j, EmitAll(w.body)) && At(data, k, w.end)
    ensures |w.tag| >= 1 && |w.end| >= 1 && k + |w.end| == i + |Emit(w)|
  {
    AtConcat(data, i, w.tag, EmitAll(w.body) + w.end);
    AtConcat(data, j, EmitAll(w.body), w.end);
  }

  lemma {:induction false} SkipFields(data: Bytes, start: nat, i: nat, ws: seq<WireField>, depth: nat, end: nat)
    requires WellFormedAll(ws) && depth > 0 && At(data, i, EmitAll(ws)) && |data| <= MAX_INT
    requires end == i + |EmitAll(ws)|
    ensures Skip(data, start, i, depth) == Skip(data, start, end, depth)
    decreases ws, 0
  {
    if ws != [] {
      var next := i + |Emit(ws[0])|;
      AtConcat(data, i, Emit(ws[0]), EmitAll(ws[1..]));
      SkipField(data, start, i, ws[0], depth, next);
      SkipFields(data, start, next, ws[1..], depth, end);
    }
  }

  // ---------------------------------------------------------------------
  // Whole messages
  // ---------------------------------------------------------------------

  /** One field of a message as it stands on the wire. */
  datatype Item =
    | KnownNumber(tag: Bytes, number: Bytes)
    | KnownBlob(tag: Bytes, length: Bytes, content: Bytes)
    | Unknown(wire: WireField)

  function EmitItem(x: Item): Bytes {
    match x
    case KnownNumber(tag, number) => tag + number
    case KnownBlob(tag, length, content) => tag + (length + content)
    case Unknown(w) => Emit(w)
  }

  function EmitItems(xs: seq<Item>): Bytes {
    if xs == [] then [] else EmitItem(xs[0]) + EmitItems(xs[1..])
  }

  /** The field number a reader takes from a tag. */
  ghost function FieldNumber(tag: Bytes): int {
    ToInt32(Value(tag) / 8)
  }

  ghost predicate Fits(schema: Schema, tag: Bytes, kind: Kind) {
    FieldNumber(tag) > 0 && schema(FieldNumber(tag)) == kind
  }

  ghost predicate Legal(schema: Schema, x: Item) {
    match x
    case KnownNumber(tag, number) => IsTag(tag, 0) && Fits(schema, tag, NumberField) && IsVarint(number)
    case KnownBlob(tag, length, content) =>
      IsTag(tag, 2) && Fits(schema, tag, BytesField) && IsVarint(length) && ToInt64(Value(length)) == |content|
    case Unknown(w) => WellFormed(w) && Fits(schema, w.tag, UnknownField)
  }

  ghost predicate AllLegal(schema: Schema, xs: seq<Item>) {
    xs != [] ==> Legal(schema, xs[0]) && AllLegal(schema, xs[1..])
  }

  ghost function EventsOf(x: Item): seq<Event> {
    match x
    case KnownNumber(tag, number) => [Number(FieldNumber(tag), ToInt64(Value(number)))]
    case KnownBlob(tag, length, content) => [Blob(FieldNumber(tag), content)]
    case Unknown(_) => []
  }

  ghost function AllEvents(xs: seq<Item>): seq<Event> {
    if xs == [] then [] else EventsOf(xs[0]) + AllEvents(xs[1..])
  }

  lemma NumberTag(schema: Schema, data: Bytes, i: nat, tag: Bytes, f: Field)
    requires IsTag(tag, 0) && Fits(schema, tag, NumberField) && At(data, i, tag)
    requires NumberAt(data, i + |tag|, FieldNumber(tag)) == f
    ensures NextField(schema, data, i) == f
  {
    ReadAt(data, i, tag);
  }

  lemma BlobTag(schema: Schema, data: Bytes, i: nat, tag: Bytes, f: Field)
    requires IsTag(tag, 2) && Fits(schema, tag, BytesField) && At(data, i, tag)
    requires BlobAt(data, i + |tag|, FieldNumber(tag)) == f
    ensures NextField(schema, data, i) == f
  {
    ReadAt(data, i, tag);
  }

  lemma NumberReads(data: Bytes, i: nat, number: Bytes, num: int)
    requires IsVarint(number) && At(data, i, number)
    ensures NumberAt(data, i, num) == Field([Number(num, ToInt64(Value(number)))], i + |number|)
  {
    ReadAt(data, i, number);
  }

  lemma BlobFound(data: Bytes, i: nat, v: nat, j: nat, content: Bytes, num: int)
    requires Read(data, i) == Got(v, j) && ToInt64(v) == |content| && j + |content| <= |data| <= MAX_INT
    requires data[j..j + |content|] == content
    ensures BlobAt(data, i, num) == Field([Blob(num, content)], j + |content|)
  {
  }

  lemma BlobReads(data: Bytes, i: nat, length: Bytes, content: Bytes, num: int)
    requires IsVarint(length) && ToInt64(Value(length)) == |content| && |data| <= MAX_INT
    requires At(data, i, length) && At(data, i + |length|, content)
    ensures BlobAt(data, i, num) == Field([Blob(num, content)], i + |length| + |content|)
  {
    ReadAt(data, i, length);
    BlobFound(data, i, Value(length), i + |length|, content, num);
  }

  lemma NextNumber(schema: Schema, data: Bytes, i: nat, x: Item, end: nat)
    requires x.KnownNumber? && Legal(schema, x) && At(data, i, EmitItem(x)) && end == i + |EmitItem(x)|
    ensures NextField(schema, data, i) == Field(EventsOf(x), end)
  {
    AtConcat(data, i, x.tag, x.number);
    NumberReads(data, i + |x.tag|, x.number, FieldNumber(x.tag));
    NumberTag(schema, data, i, x.tag, Field(EventsOf(x), end));
  }

  lemma NextBlob(schema: Schema, data: Bytes, i: nat, x: Item, end: nat)
    requires x.KnownBlob? && Legal(schema, x) && At(data, i, EmitItem(x)) && end == i + |EmitItem(x)|
    requires |data| <= MAX_INT
    ensures NextField(schema, data, i) == Field(EventsOf(x), end)
  {
    AtConcat(data, i, x.tag, x.length + x.content);
    AtConcat(data, i + |x.tag|, x.length, x.content);
    BlobReads(data, i + |x.tag|, x.length, x.content, FieldNumber(x.tag));
    BlobTag(schema, data, i, x.tag, Field(EventsOf(x), end));
  }

  lemma TagFirst(data: Bytes, i: nat, w: WireField)
    requires WellFormed(w) && At(data, i, Emit(w))
    ensures IsVarint(w.tag) && At(data, i, w.tag) && Value(w.tag) % 8 != 4
  {
    match w
    case WVarint(tag, number) => AtConcat(data, i, tag, number);
    case WFixed64(tag, payload) => AtConcat(data, i, tag, payload);
    case WBytes(tag, length, payload) => AtConcat(data, i, tag, length + payload);
    case WGroup(tag, body, end) => AtConcat(data, i, tag, EmitAll(body) + end);
    case WFixed32(tag, payload) => AtConcat(data, i, tag, payload);
  }

  lemma NextUnknown(schema: Schema, data: Bytes, i: nat, x: Item, end: nat)
    requires x.Unknown? && Legal(schema, x) && At(data, i, EmitItem(x)) && end == i + |EmitItem(x)|
    requires |data| <= MAX_INT
    ensures NextField(schema, data, i) == Field(EventsOf(x), end)
  {
    TagFirst(data, i, x.wire);
    ReadAt(data, i, x.wire.tag);
    SkipField(data, i, i, x.wire, 0, end);
    assert UnknownAt(data, i) == Field([], end);
  }

  lemma NextItem(schema: Schema, data: Bytes, i: nat, x: Item, end: nat)
    requires Legal(schema, x) && At(data, i, EmitItem(x)) && end == i + |EmitItem(x)| && |data| <= MAX_INT
    ensures NextField(schema, data, i) == Field(EventsOf(x), end)
  {
    match x
    case KnownNumber(_, _) => NextNumber(schema, data, i, x, end);
    case KnownBlob(_, _, _) => NextBlob(schema, data, i, x, end);
    case Unknown(_) => NextUnknown(schema, data, i, x, end);
  }

  lemma ParseOn(schema: Schema, data: Bytes, i: nat, events: seq<Event>, next: nat, rest: seq<Event>, all: seq<Event>)
    requires i < |data| && NextField(schema, data, i) == Field(events, next)
    requires Parse(schema, data, next) == Events(rest)
    requires all == events + rest
    ensures Parse(schema, data, i) == Events(all)
  {
  }

  lemma {:induction false} ParseItems(schema: Schema, data: Bytes, i: nat, xs: seq<Item>, all: seq<Event>)
    requires AllLegal(schema, xs) && |data| <= MAX_INT
    requires At(data, i, EmitItems(xs)) && i + |EmitItems(xs)| == |data| && all == AllEvents(xs)
    ensures Parse(schema, data, i) == Events(all)
    decreases |xs|
  {
    if xs != [] {
      var x, next := xs[0], i + |EmitItem(xs[0])|;
      AtConcat(data, i, EmitItem(x), EmitItems(xs[1..]));
      ParseItems(schema, data, next, xs[1..], AllEvents(xs[1..]));
      ParseItem(schema, data, i, x, next, AllEvents(xs[1..]), all);
    }
  }

  lemma ParseItem(schema: Schema, data: Bytes, i: nat, x: Item, next: nat, rest: seq<Event>, all: seq<Event>)
    requires Legal(schema, x) && At(data, i, EmitItem(x)) && next == i + |EmitItem(x)| && |data| <= MAX_INT
    requires Parse(schema, data, next) == Events(rest) && all == EventsOf(x) + rest
    ensures Parse(schema, data, i) == Events(all)
  {
    NextItem(schema, data, i, x, next);
    ParseOn(schema, data, i, EventsOf(x), next, rest, all);
  }

  /**
   Any sequence of known and well-formed unknown fields, in any order and with
   groups nested to any depth, is read as its known fields.
   */
  lemma ParseMessage(schema: Schema, xs: seq<Item>)
    requires AllLegal(schema, xs) && |EmitItems(xs)| <= MAX_INT
    ensures Parse(schema, EmitItems(xs), 0) == Events(AllEvents(xs))
  {
    ParseItems(schema, EmitItems(xs), 0, xs, AllEvents(xs));
  }

  lemma {:induction false} EventsConcat(a: seq<Item>, b: seq<Item>)
    ensures AllEvents(a + b) == AllEvents(a) + AllEvents(b)
  {
    if a == [] {
      assert a + b == b;
    } else {
      assert (a + b)[0] == a[0] && (a + b)[1..] == a[1..] + b;
      EventsConcat(a[1..], b);
      var x, y, z := EventsOf(a[0]), AllEvents(a[1..]), AllEvents(b);
      assert x + (y + z) == (x + y) + z;
    }
  }

  lemma {:induction false} EmitConcat(a: seq<Item>, b: seq<Item>)
    ensures EmitItems(a + b) == EmitItems(a) + EmitItems(b)
  {
    if a == [] {
      assert a + b == b;
    } else {
      assert (a + b)[0] == a[0] && (a + b)[1..] == a[1..] + b;
      EmitConcat(a[1..], b);
      var x, y, z := EmitItem(a[0]), EmitItems(a[1..]), EmitItems(b);
      assert x + (y + z) == (x + y) + z;
    }
  }

  lemma UnknownSilent(a: seq<Item>, w: WireField, b: seq<Item>)
    ensures AllEvents(a + [Unknown(w)] + b) == AllEvents(a + b)
    ensures EmitItems(a + [Unknown(w)] + b) == EmitItems(a) + Emit(w) + EmitItems(b)
  {
    var x := [Unknown(w)];
    assert x[1..] == [];
    assert EmitItems([]) == [] && Emit(w) + [] == Emit(w);
    assert EmitItems(x) == Emit(w) && AllEvents(x) == [] + [];
    EventsConcat(a, b);
    EventsConcat(a, x);
    EventsConcat(a + x, b);
    EmitConcat(a, x);
    EmitConcat(a + x, b);
    assert AllEvents(a) + [] == AllEvents(a);
  }

  /** Inserting a well-formed unknown field between fields changes nothing. */
  lemma InsertUnknown(schema: Schema, a: seq<Item>, w: WireField, b: seq<Item>)
    requires AllLegal(schema, a) && AllLegal(schema, b) && Legal(schema, Unknown(w))
    requires |EmitItems(a)| + |Emit(w)| + |EmitItems(b)| <= MAX_INT
    ensures Parse(schema, EmitItems(a) + Emit(w) + EmitItems(b), 0) == Events(AllEvents(a + b))
    ensures Parse(schema, EmitItems(a) + EmitItems(b), 0) == Events(AllEvents(a + b))
  {
    EmitConcat(a, b);
    LegalConcat(schema, a, b);
    ParseMessage(schema, a + b);
    UnknownSilent(a, w, b);
    LegalOne(schema, w);
    LegalConcat(schema, a, [Unknown(w)]);
    LegalConcat(schema, a + [Unknown(w)], b);
    ParseMessage(schema, a + [Unknown(w)] + b);
  }

  lemma LegalOne(schema: Schema, w: WireField)
    requires Legal(schema, Unknown(w))
    ensures AllLegal(schema, [Unknown(w)])
  {
    assert [Unknown(w)][1..] == [];
    assert AllLegal(schema, []);
  }

  lemma {:induction false} LegalConcat(schema: Schema, a: seq<Item>, b: seq<Item>)
    requires AllLegal(schema, a) && AllLegal(schema, b)
    ensures AllLegal(schema, a + b)
  {
    if a == [] {
      assert a + b == b;
    } else {
      assert (a + b)[0] == a[0] && (a + b)[1..] == a[1..] + b;
      LegalConcat(schema, a[1..], b);
    }
  }
}
