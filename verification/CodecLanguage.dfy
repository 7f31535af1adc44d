/** Exactly which byte strings the readers accept. */
module WireLanguage {
  import opened Wire
  import opened WireTheorems

  lemma AtJoin(data: Bytes, i: nat, a: Bytes, b: Bytes)
    requires At(data, i, a) && At(data, i + |a|, b)
    ensures At(data, i, a + b)
  {
    forall k | 0 <= k < |a + b| ensures data[i + k] == (a + b)[k] {
      if k < |a| {
        assert data[i + k] == a[k];
      } else {
        assert data[i + |a| + (k - |a|)] == b[k - |a|];
      }
    }
  }

  lemma AtSelf(data: Bytes, i: nat, j: nat)
    requires i <= j <= |data|
    ensures At(data, i, data[i..j])
  {
  }

  /** Whatever is read as a varint is one. */
  lemma {:induction false} ReadIsTerminated(data: Bytes, i: nat, k: nat, acc: nat, v: nat, next: nat)
    requires k <= 10 && ReadFrom(data, i, k, acc) == Got(v, next)
    ensures Terminated(data[i..next], k) && ValueFrom(data[i..next], k, acc) == v
    decreases 10 - k
  {
    var bs := data[i..next];
    assert bs[0] == data[i];
    if data[i] < 128 {
      assert bs[1..] == [];
    } else {
      ReadIsTerminated(data, i + 1, k + 1, acc + Shifted(data[i] % 128, k), v, next);
      assert bs[1..] == data[i + 1..next];
    }
  }

  lemma ReadIsVarint(data: Bytes, i: nat, v: nat, next: nat)
    requires Read(data, i) == Got(v, next)
    ensures IsVarint(data[i..next]) && Value(data[i..next]) == v && At(data, i, data[i..next])
  {
    ReadIsTerminated(data, i, 0, 0, v, next);
  }

  /** `w` stands between `i` and `next`. */
  ghost predicate FieldAt(data: Bytes, i: nat, w: WireField, next: nat) {
    WellFormed(w) && At(data, i, Emit(w)) && i + |Emit(w)| == next
  }

  /** What one iteration of the skip loop passes, if it is not a group's tag, is a field. */
  lemma PlainField(data: Bytes, i: nat, wire: nat, j: nat, next: nat) returns (w: WireField)
    requires Read(data, i) == Got(wire, j) && wire % 8 != 3 && wire % 8 != 4
    requires Payload(data, j, wire % 8) == Ok(next) && next <= |data|
    ensures FieldAt(data, i, w, next) && w.tag == data[i..j]
  {
    var tag := data[i..j];
    ReadIsVarint(data, i, wire, j);
    AtSelf(data, j, next);
    AtJoin(data, i, tag, data[j..next]);
    if wire % 8 == 0 {
      ReadIsVarint(data, j, Read(data, j).value, next);
      w := WVarint(tag, data[j..next]);
    } else if wire % 8 == 1 {
      w := WFixed64(tag, data[j..next]);
    } else if wire % 8 == 5 {
      w := WFixed32(tag, data[j..next]);
    } else {
      var k := Read(data, j).next;
      ReadIsVarint(data, j, Read(data, j).value, k);
      w := WBytes(tag, data[j..k], data[k..next]);
      assert data[j..k] + data[k..next] == data[j..next];
    }
  }

  /** The fields `ws` and the closing tag of a group stand between `i` and `next`. */
  ghost predicate BodyAt(data: Bytes, i: nat, ws: seq<WireField>, close: Bytes, k: nat, next: nat) {
    && WellFormedAll(ws) && At(data, i, EmitAll(ws)) && i + |EmitAll(ws)| == k
    && IsTag(close, 4) && At(data, k, close) && k + |close| == next
  }

  lemma BodyCons(data: Bytes, i: nat, w: WireField, j: nat, ws: seq<WireField>, close: Bytes, k: nat, next: nat)
    requires FieldAt(data, i, w, j) && BodyAt(data, j, ws, close, k, next)
    ensures BodyAt(data, i, [w] + ws, close, k, next)
  {
    assert ([w] + ws)[1..] == ws;
    AtJoin(data, i, Emit(w), EmitAll(ws));
  }

  lemma GroupField(data: Bytes, i: nat, wire: nat, j: nat, ws: seq<WireField>, close: Bytes, k: nat, next: nat)
    requires Read(data, i) == Got(wire, j) && wire % 8 == 3 && BodyAt(data, j, ws, close, k, next)
    ensures FieldAt(data, i, WGroup(data[i..j], ws, close), next)
  {
    ReadIsVarint(data, i, wire, j);
    AtJoin(data, j, EmitAll(ws), close);
    AtJoin(data, i, data[i..j], EmitAll(ws) + close);
  }

  /** How the skip loop goes on after a closing tag. */
  ghost predicate Continues(data: Bytes, start: nat, next: nat, depth: nat, end: nat) {
    SkipRest(data, start, next, depth) == Ok(end)
  }

  /**
   Inside a group: what the loop passes up to the group's end is well-formed
   fields and a closing tag.
   */
  lemma {:induction false} SkipIsBody(data: Bytes, start: nat, i: nat, depth: nat, end: nat)
    returns (ws: seq<WireField>, close: Bytes, k: nat, next: nat)
    requires depth >= 1 && Skip(data, start, i, depth) == Ok(end) && end <= |data|
    ensures BodyAt(data, i, ws, close, k, next) && i < next && Continues(data, start, next, depth - 1, end)
    decreases |data| - i
  {
    var wire, j := Read(data, i).value, Read(data, i).next;
    if wire % 8 == 4 {
      ReadIsVarint(data, i, wire, j);
      ws, close, k, next := [], data[i..j], i, j;
    } else {
      var w, after := SkipIsInner(data, start, i, depth, end);
      ws, close, k, next := SkipIsBody(data, start, after, depth, end);
      BodyCons(data, i, w, after, ws, close, k, next);
      ws := [w] + ws;
    }
  }

  /** One whole field inside a group. */
  lemma {:induction false} SkipIsInner(data: Bytes, start: nat, i: nat, depth: nat, end: nat)
    returns (w: WireField, after: nat)
    requires depth >= 1 && Skip(data, start, i, depth) == Ok(end) && end <= |data|
    requires Read(data, i).Got? && Read(data, i).value % 8 != 4
    ensures FieldAt(data, i, w, after) && i < after && Skip(data, start, after, depth) == Ok(end)
    decreases |data| - i, 0
  {
    var wire, j := Read(data, i).value, Read(data, i).next;
    if wire % 8 == 3 {
      var body, close, k, next := SkipIsBody(data, start, j, depth + 1, end);
      GroupField(data, i, wire, j, body, close, k, next);
      w, after := WGroup(data[i..j], body, close), next;
    } else {
      after := SkipOne(data, i, depth).next;
      w := PlainField(data, i, wire, j, after);
    }
  }

  /** At the top: what the loop passes is one well-formed field. */
  lemma SkipIsField(data: Bytes, i: nat, end: nat) returns (w: WireField)
    requires Skip(data, i, i, 0) == Ok(end) && end <= |data|
    ensures FieldAt(data, i, w, end) && Read(data, i).Got? && w.tag == data[i..Read(data, i).next]
  {
    var wire, j := Read(data, i).value, Read(data, i).next;
    if wire % 8 == 3 {
      var body, close, k, next := SkipIsBody(data, i, j, 1, end);
      GroupField(data, i, wire, j, body, close, k, next);
      w := WGroup(data[i..j], body, close);
    } else {
      w := PlainField(data, i, wire, j, end);
    }
  }

  ghost predicate ItemAt(schema: Schema, data: Bytes, i: nat, x: Item, next: nat) {
    Legal(schema, x) && At(data, i, EmitItem(x)) && i + |EmitItem(x)| == next
  }

  lemma BlobItem(schema: Schema, data: Bytes, i: nat, j: nat, next: nat) returns (x: Item)
    requires i <= j <= |data| && IsTag(data[i..j], 2) && Fits(schema, data[i..j], BytesField)
    requires BlobAt(data, j, FieldNumber(data[i..j])).Field? && BlobAt(data, j, FieldNumber(data[i..j])).next == next
    ensures ItemAt(schema, data, i, x, next)
  {
    var tag := data[i..j];
    var v, k := Read(data, j).value, Read(data, j).next;
    ReadIsVarint(data, j, v, k);
    x := KnownBlob(tag, data[j..k], data[k..next]);
    assert data[j..k] + data[k..next] == data[j..next];
    AtSelf(data, i, j);
    AtSelf(data, j, next);
    AtJoin(data, i, tag, data[j..next]);
  }

  lemma NumberItem(schema: Schema, data: Bytes, i: nat, j: nat, next: nat) returns (x: Item)
    requires i <= j <= |data| && IsTag(data[i..j], 0) && Fits(schema, data[i..j], NumberField)
    requires NumberAt(data, j, FieldNumber(data[i..j])).Field?
    requires NumberAt(data, j, FieldNumber(data[i..j])).next == next
    ensures ItemAt(schema, data, i, x, next)
  {
    var tag := data[i..j];
    ReadIsVarint(data, j, Read(data, j).value, next);
    x := KnownNumber(tag, data[j..next]);
    AtSelf(data, i, j);
    AtSelf(data, j, next);
    AtJoin(data, i, tag, data[j..next]);
  }

  /** Whatever one iteration of an Unmarshal loop takes is a legal item. */
  lemma FieldIsItem(schema: Schema, data: Bytes, i: nat) returns (x: Item)
    requires NextField(schema, data, i).Field?
    ensures ItemAt(schema, data, i, x, NextField(schema, data, i).next)
  {
    var wire, j, next := Read(data, i).value, Read(data, i).next, NextField(schema, data, i).next;
    ReadIsVarint(data, i, wire, j);
    var tag := data[i..j];
    match schema(FieldNumber(tag))
    case NumberField => x := NumberItem(schema, data, i, j, next);
    case BytesField => x := BlobItem(schema, data, i, j, next);
    case UnknownField =>
      var w := SkipIsField(data, i, next);
      x := Unknown(w);
  }

  lemma {:induction false} ParsedIsItems(schema: Schema, data: Bytes, i: nat) returns (xs: seq<Item>)
    requires Parse(schema, data, i).Events? && i <= |data|
    ensures AllLegal(schema, xs) && At(data, i, EmitItems(xs)) && i + |EmitItems(xs)| == |data|
    decreases |data| - i
  {
    if i == |data| {
      xs := [];
    } else {
      var next := NextField(schema, data, i).next;
      var x := FieldIsItem(schema, data, i);
      var rest := ParsedIsItems(schema, data, next);
      xs := [x] + rest;
      assert xs[1..] == rest;
      AtJoin(data, i, EmitItem(x), EmitItems(rest));
    }
  }

  /** Legal items that spell out the bytes, with their events. */
  ghost predicate Spells(schema: Schema, xs: seq<Item>, data: Bytes, events: seq<Event>) {
    AllLegal(schema, xs) && EmitItems(xs) == data && AllEvents(xs) == events
  }

  /**
   The accepted language: a byte string is read as `events` exactly when it is
   a sequence of known and well-formed unknown fields with these events.
   */
  lemma AcceptedLanguage(schema: Schema, data: Bytes, events: seq<Event>)
    requires |data| <= MAX_INT
    ensures Parse(schema, data, 0) == Events(events) <==> exists xs :: Spells(schema, xs, data, events)
  {
    if Parse(schema, data, 0) == Events(events) {
      var xs := ParsedIsItems(schema, data, 0);
      assert EmitItems(xs) == data;
      ParseMessage(schema, xs);
      assert Spells(schema, xs, data, events);
    }
    if xs :| Spells(schema, xs, data, events) {
      ParseMessage(schema, xs);
    }
  }

  // ---------------------------------------------------------------------
  // Which error
  // ---------------------------------------------------------------------

  /** Why the skip loop stops at a field whose tag is `tag`, with `depth` groups open. */
  lemma SkipErrors(data: Bytes, start: nat, i: nat, depth: nat, tag: Bytes)
    requires IsVarint(tag) && At(data, i, tag)
    ensures IsTag(tag, 4) && depth == 0 ==> Skip(data, start, i, depth) == Failed(UnexpectedEndOfGroup)
    ensures forall j: nat :: j >= |data| ==> Skip(data, start, j, depth) == Failed(UnexpectedEof)
    ensures IsTag(tag, 6) || IsTag(tag, 7) ==> Skip(data, start, i, depth) == Failed(IllegalWireType)
    ensures IsTag(tag, 0) || IsTag(tag, 2) ==>
      forall e :: Read(data, i + |tag|) == Bad(e) ==> Skip(data, start, i, depth) == Failed(e)
    ensures IsTag(tag, 2) ==>
      forall v: nat, next: nat :: Read(data, i + |tag|) == Got(v, next) && ToInt64(v) < 0 ==>
        Skip(data, start, i, depth) == Failed(InvalidLength)
  {
    ReadAt(data, i, tag);
  }

  /** Why a message is refused at a field whose tag is `tag`. */
  lemma FieldErrors(schema: Schema, data: Bytes, i: nat, tag: Bytes)
    requires IsVarint(tag) && At(data, i, tag)
    ensures IsTag(tag, 4) ==> NextField(schema, data, i) == Refused(EndGroupForNonGroup)
    ensures !IsTag(tag, 4) && FieldNumber(tag) <= 0 ==> NextField(schema, data, i) == Refused(IllegalTag)
    ensures !IsTag(tag, 4) && !IsTag(tag, 0) && Fits(schema, tag, NumberField) ==>
      NextField(schema, data, i) == Refused(WrongWireType)
    ensures !IsTag(tag, 4) && !IsTag(tag, 2) && Fits(schema, tag, BytesField) ==>
      NextField(schema, data, i) == Refused(WrongWireType)
  {
    ReadAt(data, i, tag);
  }

  /** Why a known field's payload is refused. */
  lemma PayloadErrors(schema: Schema, data: Bytes, i: nat, tag: Bytes)
    requires IsVarint(tag) && At(data, i, tag)
    requires (IsTag(tag, 0) && Fits(schema, tag, NumberField)) || (IsTag(tag, 2) && Fits(schema, tag, BytesField))
    ensures forall e :: Read(data, i + |tag|) == Bad(e) ==> NextField(schema, data, i) == Refused(e)
    ensures forall v: nat, next: nat :: IsTag(tag, 2) && Read(data, i + |tag|) == Got(v, next) ==>
      && (ToInt64(v) < 0 ==> NextField(schema, data, i) == Refused(InvalidLength))
      && (next + ToInt64(v) > |data| && 0 <= ToInt64(v) && next + ToInt64(v) <= MAX_INT ==>
            NextField(schema, data, i) == Refused(UnexpectedEof))
  {
    ReadAt(data, i, tag);
  }
}
