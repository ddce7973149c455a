/** OMCI frame dissection: the field descriptors of the Get request, the Get
    response and the OMCI frame, what each kind of field reads from the bytes
    in front of it (getfield), and the dissection loop that stores each value
    in the packet's field dict. OMCIFrame patches that loop so that a None
    never overwrites a value already stored under the same name. */
module Frame {
  import opened Wrappers
  import opened Fields
  import opened Schema
  import opened EntityCodec

  /** A stored field value: None, a primitive, a dissected inner packet (its
      class, its fields and its raw payload, empty when it has none), or the
      attribute dict OMCIData reads. */
  datatype FieldValue =
    | NoValue
    | Prim(value: Value)
    | Message(className: string, fields: map<string, FieldValue>, payload: seq<byte>)
    | AttributeData(values: map<string, Value>)

  /** The condition of a ConditionalField: pkt.<name> == <value>. */
  datatype Cond = FieldEquals(name: string, value: int)

  /** A field descriptor of a packet layout (fields_desc). */
  datatype FieldDesc =
    | Leaf(name: string, codec: Codec, default: FieldValue)
    | OmciData(name: string, entityClassField: string, maskField: string)
    | PacketField(name: string, className: string, layout: seq<FieldDesc>)
    | Conditional(fld: FieldDesc, cond: Cond)
    | FixedLen(fld: FieldDesc, align: nat, padWith: byte)

  function Name(f: FieldDesc): string
  {
    match f
    case Leaf(name, _, _) => name
    case OmciData(name, _, _) => name
    case PacketField(name, _, _) => name
    case Conditional(fld, _) => Name(fld)
    case FixedLen(fld, _, _) => Name(fld)
  }

  /** The default value of a field: a wrapper has the default of what it wraps. */
  function DefaultOf(f: FieldDesc): FieldValue
  {
    match f
    case Leaf(_, _, default) => default
    case OmciData(_, _, _) => NoValue
    case PacketField(_, _, _) => NoValue
    case Conditional(fld, _) => DefaultOf(fld)
    case FixedLen(fld, _, _) => DefaultOf(fld)
  }

  /** The default of a name in a layout; a later field of the same name wins,
      as when the packet fills its default dict in layout order. */
  function LayoutDefault(layout: seq<FieldDesc>, name: string): FieldValue
    decreases |layout|
  {
    if layout == [] then NoValue
    else if Name(layout[|layout| - 1]) == name then DefaultOf(layout[|layout| - 1])
    else LayoutDefault(layout[..|layout| - 1], name)
  }

  /** getattr(pkt, name): the stored value, else the layout's default. */
  function Getattr(layout: seq<FieldDesc>, fields: map<string, FieldValue>, name: string): FieldValue
  {
    if name in fields then fields[name] else LayoutDefault(layout, name)
  }

  predicate Holds(c: Cond, layout: seq<FieldDesc>, fields: map<string, FieldValue>)
  {
    Getattr(layout, fields, c.name) == Prim(Int(c.value))
  }

  /** A stored value as the integer OMCIData expects, if it is one. */
  function AsInt(v: FieldValue): Option<int>
  {
    if v.Prim? && v.value.Int? then Some(v.value.n) else None
  }

  function AsMask(v: FieldValue): Option<nat>
  {
    if v.Prim? && v.value.Int? && v.value.n >= 0 then Some(v.value.n) else None
  }

  /** Every byte of load is the pad byte. */
  predicate AllPad(load: seq<byte>, pad: byte)
  {
    forall j :: 0 <= j < |load| ==> load[j] == pad
  }

  /** FixedLenField's clean-up: a message whose raw payload is only padding
      loses that payload. */
  function DropPadding(v: FieldValue, pad: byte): FieldValue
  {
    if v.Message? && v.payload != [] && AllPad(v.payload, pad) then v.(payload := []) else v
  }

  function Size(f: FieldDesc): nat
  {
    match f
    case PacketField(_, _, layout) => 1 + LayoutSize(layout)
    case Conditional(fld, _) => 1 + Size(fld)
    case FixedLen(fld, _, _) => 1 + Size(fld)
    case _ => 1
  }

  function LayoutSize(layout: seq<FieldDesc>): (r: nat)
    ensures forall i :: 0 <= i < |layout| ==> Size(layout[i]) <= r
  {
    if layout == [] then 0 else Size(layout[0]) + LayoutSize(layout[1..])
  }

  /** f.getfield(pkt, s) for a packet with the given layout and stored fields:
      the bytes left after the field and the value read. */
  function GetField(layout: seq<FieldDesc>, fields: map<string, FieldValue>, f: FieldDesc, s: seq<byte>)
    : Result<(seq<byte>, FieldValue), OmciError>
    decreases Size(f), 0, 0
  {
    match f
    case Leaf(_, codec, _) =>
      (match Decode(codec, s)
       case None => Err(Truncated)
       case Some((v, rest)) => Ok((rest, Prim(v))))
    case OmciData(_, entityClassField, maskField) =>
      var classId := AsInt(Getattr(layout, fields, entityClassField));
      var mask := AsMask(Getattr(layout, fields, maskField));
      (match GetfieldSpec(classId, mask, s)
       case Err(e) => Err(e)
       case Ok((rest, data)) => Ok((rest, AttributeData(data))))
    case PacketField(_, className, inner) =>
      // the inner packet takes all of s; what it does not dissect becomes its payload
      (match Dissected(className, inner, s)
       case Err(e) => Err(e)
       case Ok(msg) => Ok(([], msg)))
    case Conditional(fld, cond) =>
      if Holds(cond, layout, fields) then GetField(layout, fields, fld, s) else Ok((s, NoValue))
    case FixedLen(fld, align, padWith) =>
      var k := if align <= |s| then align else |s|;
      (match GetField(layout, fields, fld, s[..k])
       case Err(e) => Err(e)
       case Ok((remain, v)) => Ok((remain + s[k..], DropPadding(v, padWith))))
  }

  /** A new packet of the given layout dissecting s: its fields, and what is
      left over as its raw payload. */
  function Dissected(className: string, layout: seq<FieldDesc>, s: seq<byte>): Result<FieldValue, OmciError>
    decreases LayoutSize(layout), 2, 0
  {
    match DoDissectFrom(layout, 0, map[], s, false)
    case (fields, Err(e)) => Err(e)
    case (fields, Ok(rest)) => Ok(Message(className, fields, rest))
  }

  /** The store rule of the dissection loop: the library's loop always
      writes; the patched loop of OMCIFrame skips a None for a name already
      stored. */
  function Store(fields: map<string, FieldValue>, name: string, v: FieldValue, patched: bool): map<string, FieldValue>
  {
    if !patched || !v.NoValue? || name !in fields then fields[name := v] else fields
  }

  /** The dissection loop from field i on, with the given stored fields and
      remaining bytes: the fields it leaves and the bytes it returns, or the
      error a field raised (the fields stored until then stay). It stops
      as soon as the bytes are used up. */
  function DoDissectFrom(layout: seq<FieldDesc>, i: nat, fields: map<string, FieldValue>, s: seq<byte>, patched: bool)
    : (map<string, FieldValue>, Result<seq<byte>, OmciError>)
    requires i <= |layout|
    decreases LayoutSize(layout), 1, |layout| - i
  {
    if i == |layout| || s == [] then (fields, Ok(s))
    else
      match GetField(layout, fields, layout[i], s)
      case Err(e) => (fields, Err(e))
      case Ok((rest, v)) => DoDissectFrom(layout, i + 1, Store(fields, Name(layout[i]), v, patched), rest, patched)
  }

  /** A packet being dissected: its layout, its field dict and its payload. */
  class Packet {
    const layout: seq<FieldDesc>
    var fields: map<string, FieldValue>
    var payload: seq<byte>

    constructor(layout: seq<FieldDesc>)
      ensures this.layout == layout && fields == map[] && payload == []
    {
      this.layout := layout;
      fields := map[];
      payload := [];
    }

    /** OMCIFrame.do_dissect: read each field in turn while bytes remain,
        storing its value under the patched rule; return what is left. */
    method DoDissect(s: seq<byte>) returns (r: Result<seq<byte>, OmciError>)
      modifies this
      ensures (fields, r) == DoDissectFrom(layout, 0, old(fields), s, true)
      ensures payload == old(payload)
    {
      var rest := s;
      var i := 0;
      while i < |layout| && rest != []
        invariant 0 <= i <= |layout|
        invariant payload == old(payload)
        invariant DoDissectFrom(layout, i, fields, rest, true) == DoDissectFrom(layout, 0, old(fields), s, true)
      {
        var f := layout[i];
        var got := GetField(layout, fields, f, rest);
        if got.Err? {
          return Err(got.error);
        }
        var (rest', fval) := got.value;
        // a None does not wipe out a value already stored under the same name
        if !fval.NoValue? || Name(f) !in fields {
          fields := fields[Name(f) := fval];
        }
        rest := rest';
        i := i + 1;
      }
      return Ok(rest);
    }

    /** Packet.dissect for a fresh packet: the fields are dissected and the
        bytes left over become the raw payload. */
    method Dissect(s: seq<byte>) returns (r: Result<(), OmciError>)
      modifies this
      ensures var (f, out) := DoDissectFrom(layout, 0, old(fields), s, true);
        fields == f &&
        (out.Ok? ==> r == Ok(()) && payload == out.value) &&
        (out.Err? ==> r == Err(out.error) && payload == old(payload))
    {
      var rest := DoDissect(s);
      if rest.Err? {
        return Err(rest.error);
      }
      payload := rest.value;
      return Ok(());
    }
  }

  /** OMCIFrame(s): a new frame packet dissecting s. */
  method NewFrame(s: seq<byte>) returns (p: Packet, r: Result<(), OmciError>)
    ensures fresh(p) && p.layout == FrameLayout
    ensures var (f, out) := DoDissectFrom(FrameLayout, 0, map[], s, true);
      p.fields == f &&
      (out.Ok? ==> r == Ok(()) && p.payload == out.value) &&
      (out.Err? ==> r == Err(out.error) && p.payload == [])
  {
    p := new Packet(FrameLayout);
    r := p.Dissect(s);
  }

  const GetRequestId := 0x49
  const GetResponseId := 0x29

  /** OMCIGetRequest.fields_desc. */
  const GetRequestLayout := [
    Leaf("entity_class", ShortField, NoValue),
    Leaf("entity_id", ShortField, Prim(Int(0))),
    Leaf("attributes_mask", ShortField, NoValue)]

  /** OMCIGetResponse.fields_desc: the attribute data is there only when
      success_code is 0. */
  const GetResponseLayout := [
    Leaf("entity_class", ShortField, NoValue),
    Leaf("entity_id", ShortField, Prim(Int(0))),
    Leaf("success_code", ByteField, Prim(Int(0))),
    Leaf("attributes_mask", ShortField, NoValue),
    Conditional(OmciData("data", "entity_class", "attributes_mask"), FieldEquals("success_code", 0))]

  /** OMCIFrame.fields_desc: message_type selects which of the two 36-byte
      message fields is read. */
  const FrameLayout := [
    Leaf("transaction_id", ShortField, Prim(Int(0))),
    Leaf("message_type", ByteField, NoValue),
    Leaf("omci", ByteField, Prim(Int(0x0a))),
    Conditional(FixedLen(PacketField("omci_message", "OMCIGetRequest", GetRequestLayout), 36, 0),
                FieldEquals("message_type", GetRequestId)),
    Conditional(FixedLen(PacketField("omci_message", "OMCIGetResponse", GetResponseLayout), 36, 0),
                FieldEquals("message_type", GetResponseId)),
    Leaf("omci_trailer", IntField, Prim(Int(0x28)))]
}
