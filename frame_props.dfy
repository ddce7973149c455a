/** Properties of OMCI frame dissection: what the patched store rule keeps,
    where the dissection loop stops, and what the fixed-length region lets the
    inner message see. */
module FrameProperties {
  import opened Wrappers
  import opened Fields
  import opened Schema
  import opened EntityCodec
  import opened Frame

  /** t is what is left at the end of s (Python's s.endswith(t)). */
  predicate EndsWith(s: seq<byte>, t: seq<byte>)
  {
    |t| <= |s| && s[|s| - |t|..] == t
  }

  /** Under the patched rule a value other than None is never lost: the name
      stays stored, and stays stored with a value other than None. */
  lemma {:induction false} PatchedDissectNeverForgets(layout: seq<FieldDesc>, i: nat, fields: map<string, FieldValue>, s: seq<byte>, name: string)
    requires i <= |layout|
    requires name in fields && !fields[name].NoValue?
    ensures var after := DoDissectFrom(layout, i, fields, s, true).0;
            name in after && !after[name].NoValue?
    decreases |layout| - i
  {
    if i < |layout| && s != [] {
      match GetField(layout, fields, layout[i], s)
      case Err(_) =>
      case Ok((rest, v)) =>
        PatchedDissectNeverForgets(layout, i + 1, Store(fields, Name(layout[i]), v, true), rest, name);
    }
  }

  /** Either store rule only ever adds names. */
  lemma {:induction false} DissectKeepsNames(layout: seq<FieldDesc>, i: nat, fields: map<string, FieldValue>, s: seq<byte>, patched: bool)
    requires i <= |layout|
    ensures fields.Keys <= DoDissectFrom(layout, i, fields, s, patched).0.Keys
    decreases |layout| - i
  {
    if i < |layout| && s != [] {
      match GetField(layout, fields, layout[i], s)
      case Err(_) =>
      case Ok((rest, v)) =>
        DissectKeepsNames(layout, i + 1, Store(fields, Name(layout[i]), v, patched), rest, patched);
    }
  }

  /** The loop leaves bytes over only after reading every field: as long as
      bytes remain, no field is skipped. */
  lemma {:induction false} DissectStopsOnlyWhenExhausted(layout: seq<FieldDesc>, i: nat, fields: map<string, FieldValue>, s: seq<byte>, patched: bool)
    requires i <= |layout|
    ensures var (after, out) := DoDissectFrom(layout, i, fields, s, patched);
            out.Ok? && out.value != [] ==> forall j :: i <= j < |layout| ==> Name(layout[j]) in after
    decreases |layout| - i
  {
    if i < |layout| && s != [] {
      match GetField(layout, fields, layout[i], s)
      case Err(_) =>
      case Ok((rest, v)) =>
        var stored := Store(fields, Name(layout[i]), v, patched);
        DissectStopsOnlyWhenExhausted(layout, i + 1, stored, rest, patched);
        DissectKeepsNames(layout, i + 1, stored, rest, patched);
    }
  }

  /** What a field leaves over is always the end of what it was given. */
  lemma {:induction false} GetFieldEndsWith(layout: seq<FieldDesc>, fields: map<string, FieldValue>, f: FieldDesc, s: seq<byte>)
    ensures GetField(layout, fields, f, s).Ok? ==> EndsWith(s, GetField(layout, fields, f, s).value.0)
    decreases f
  {
    match f
    case Leaf(_, _, _) =>
    case OmciData(_, _, _) =>
      OmciDataEndsWith(layout, fields, f, s);
    case PacketField(_, _, _) =>
    case Conditional(fld, _) =>
      GetFieldEndsWith(layout, fields, fld, s);
    case FixedLen(fld, align, _) =>
      var k := if align <= |s| then align else |s|;
      GetFieldEndsWith(layout, fields, fld, s[..k]);
      FixedLenEndsWith(layout, fields, f, s);
  }

  lemma OmciDataEndsWith(layout: seq<FieldDesc>, fields: map<string, FieldValue>, f: FieldDesc, s: seq<byte>)
    requires f.OmciData?
    ensures GetField(layout, fields, f, s).Ok? ==> EndsWith(s, GetField(layout, fields, f, s).value.0)
  {
    var classId := AsInt(Getattr(layout, fields, f.entityClassField));
    var mask := AsMask(Getattr(layout, fields, f.maskField));
    if LookupClass(classId).Some? && mask.Some? {
      GetfieldConsumes(classId, mask.value, s);
    }
  }

  lemma FixedLenEndsWith(layout: seq<FieldDesc>, fields: map<string, FieldValue>, f: FieldDesc, s: seq<byte>)
    requires f.FixedLen?
    requires var k := if f.align <= |s| then f.align else |s|;
             var inner := GetField(layout, fields, f.fld, s[..k]);
             inner.Ok? ==> EndsWith(s[..k], inner.value.0)
    ensures GetField(layout, fields, f, s).Ok? ==> EndsWith(s, GetField(layout, fields, f, s).value.0)
  {
    var k := if f.align <= |s| then f.align else |s|;
    if GetField(layout, fields, f.fld, s[..k]).Ok? {
      EndsWithAfterRegion(s, k, GetField(layout, fields, f.fld, s[..k]).value.0);
    }
  }

  lemma EndsWithAfterRegion(s: seq<byte>, k: nat, remain: seq<byte>)
    requires k <= |s| && EndsWith(s[..k], remain)
    ensures EndsWith(s, remain + s[k..])
  {
    assert s[..k][k - |remain|..] == remain;
    assert s[|s| - |remain + s[k..]|..] == s[k - |remain|..k] + s[k..];
  }

  /** The assertion raw.endswith(s) at the end of do_dissect always holds. */
  lemma {:induction false} DissectEndsWith(layout: seq<FieldDesc>, i: nat, fields: map<string, FieldValue>, s: seq<byte>, patched: bool)
    requires i <= |layout|
    ensures var out := DoDissectFrom(layout, i, fields, s, patched).1;
            out.Ok? ==> EndsWith(s, out.value)
    decreases |layout| - i
  {
    if i < |layout| && s != [] {
      GetFieldEndsWith(layout, fields, layout[i], s);
      match GetField(layout, fields, layout[i], s)
      case Err(_) =>
      case Ok((rest, v)) =>
        DissectEndsWith(layout, i + 1, Store(fields, Name(layout[i]), v, patched), rest, patched);
        var out := DoDissectFrom(layout, i, fields, s, patched).1;
        if out.Ok? {
          assert rest[|rest| - |out.value|..] == out.value;
          assert s[|s| - |out.value|..] == s[|s| - |rest|..][|rest| - |out.value|..];
        }
    }
  }

  /** The names of the fields from i on are distinct and none is stored yet. */
  predicate FreshNames(layout: seq<FieldDesc>, i: nat, fields: map<string, FieldValue>)
  {
    (forall j :: i <= j < |layout| ==> Name(layout[j]) !in fields) &&
    (forall j, k :: i <= j < k < |layout| ==> Name(layout[j]) != Name(layout[k]))
  }

  /** The patch changes nothing for a layout without repeated names: there
      the patched loop and the library's loop agree. */
  lemma {:induction false} PatchMattersOnlyForRepeatedNames(layout: seq<FieldDesc>, i: nat, fields: map<string, FieldValue>, s: seq<byte>)
    requires i <= |layout| && FreshNames(layout, i, fields)
    ensures DoDissectFrom(layout, i, fields, s, true) == DoDissectFrom(layout, i, fields, s, false)
    decreases |layout| - i
  {
    if i < |layout| && s != [] {
      match GetField(layout, fields, layout[i], s)
      case Err(_) =>
      case Ok((rest, v)) =>
        var stored := fields[Name(layout[i]) := v];
        assert Store(fields, Name(layout[i]), v, true) == stored == Store(fields, Name(layout[i]), v, false);
        assert FreshNames(layout, i + 1, stored);
        PatchMattersOnlyForRepeatedNames(layout, i + 1, stored, rest);
    }
  }

  /** A fixed-length field reads nothing beyond its region: inputs that agree
      on the first align bytes give the same value, and what is left is the
      same inner leftover followed by each input's bytes past the region. */
  lemma FixedLenReadsOnlyItsRegion(layout: seq<FieldDesc>, fields: map<string, FieldValue>, fld: FieldDesc,
                                   align: nat, pad: byte, s1: seq<byte>, s2: seq<byte>)
    requires align <= |s1| && align <= |s2| && s1[..align] == s2[..align]
    ensures var r1 := GetField(layout, fields, FixedLen(fld, align, pad), s1);
            var r2 := GetField(layout, fields, FixedLen(fld, align, pad), s2);
            (r1.Ok? <==> r2.Ok?) && (r1.Err? ==> r1 == r2) &&
            (r1.Ok? ==> r1.value.1 == r2.value.1 &&
                        r1.value.0[..|r1.value.0| - (|s1| - align)] + s2[align..] == r2.value.0)
  {
    var r1 := GetField(layout, fields, FixedLen(fld, align, pad), s1);
    if r1.Ok? {
      var remain := GetField(layout, fields, fld, s1[..align]).value.0;
      assert r1.value.0 == remain + s1[align..];
      assert r1.value.0[..|r1.value.0| - (|s1| - align)] == remain;
    }
  }

  /** A fixed-length field never returns a message whose payload is only
      padding: such a payload is removed and nothing else of the message
      changes; a payload holding any other byte is kept. */
  lemma FixedLenDropsPadding(layout: seq<FieldDesc>, fields: map<string, FieldValue>, fld: FieldDesc,
                             align: nat, pad: byte, s: seq<byte>)
    ensures var r := GetField(layout, fields, FixedLen(fld, align, pad), s);
            r.Ok? && r.value.1.Message? ==> r.value.1.payload == [] || !AllPad(r.value.1.payload, pad)
    ensures var k := if align <= |s| then align else |s|;
            var inner := GetField(layout, fields, fld, s[..k]);
            var r := GetField(layout, fields, FixedLen(fld, align, pad), s);
            inner.Ok? && inner.value.1.Message? && !AllPad(inner.value.1.payload, pad) ==> r.Ok? && r.value.1 == inner.value.1
    ensures var k := if align <= |s| then align else |s|;
            var inner := GetField(layout, fields, fld, s[..k]);
            inner.Ok? && inner.value.1.Message? && AllPad(inner.value.1.payload, pad) ==>
              GetField(layout, fields, FixedLen(fld, align, pad), s)
                == Ok((inner.value.0 + s[k..], inner.value.1.(payload := [])))
  {
  }

  /** A big-endian unsigned number read from bytes. */
  function U(t: seq<byte>): FieldValue
  {
    Prim(Int(FromBigEndian(t)))
  }

  lemma SingleByte(t: seq<byte>)
    requires |t| == 1
    ensures FromBigEndian(t) == t[0]
  {
    assert t[..0] == [];
  }

  /** One integer field of a layout read from s. */
  lemma LeafStep(layout: seq<FieldDesc>, i: nat, fields: map<string, FieldValue>, s: seq<byte>, patched: bool)
    requires i < |layout| && layout[i].Leaf? && !layout[i].codec.StrFixedLenField?
    requires s != [] && |s| >= Width(layout[i].codec)
    ensures DoDissectFrom(layout, i, fields, s, patched)
         == DoDissectFrom(layout, i + 1, Store(fields, layout[i].name, U(s[..Width(layout[i].codec)]), patched),
                          s[Width(layout[i].codec)..], patched)
  {
  }

  /** The Get request message dissects its three 2-byte fields; the rest of
      the 36-byte region is its raw payload. */
  lemma GetRequestDissected(t: seq<byte>)
    requires |t| >= 6
    ensures Dissected("OMCIGetRequest", GetRequestLayout, t)
         == Ok(Message("OMCIGetRequest",
                       map["entity_class" := U(t[0..2]), "entity_id" := U(t[2..4]), "attributes_mask" := U(t[4..6])],
                       t[6..]))
  {
    RequestSteps(GetRequestLayout, t);
  }

  lemma RequestSteps(l: seq<FieldDesc>, t: seq<byte>)
    requires |l| == 3 && l[0] == Leaf("entity_class", ShortField, NoValue)
    requires l[1] == Leaf("entity_id", ShortField, Prim(Int(0))) && l[2] == Leaf("attributes_mask", ShortField, NoValue)
    requires |t| >= 6
    ensures DoDissectFrom(l, 0, map[], t, false)
         == (map["entity_class" := U(t[0..2]), "entity_id" := U(t[2..4]), "attributes_mask" := U(t[4..6])], Ok(t[6..]))
  {
    var f1 := map["entity_class" := U(t[0..2])];
    var f2 := f1["entity_id" := U(t[2..4])];
    assert t[2..][..2] == t[2..4] && t[2..][2..] == t[4..];
    assert t[4..][..2] == t[4..6] && t[4..][2..] == t[6..];
    LeafStep(l, 0, map[], t, false);
    LeafStep(l, 1, f1, t[2..], false);
    LeafStep(l, 2, f2, t[4..], false);
  }

  /** A layout shaped like OMCIFrame's, with the two message layouts as
      parameters, so that a proof about the frame need not look inside them. */
  predicate FrameShaped(l: seq<FieldDesc>, request: seq<FieldDesc>, response: seq<FieldDesc>)
  {
    |l| == 6 &&
    l[0] == Leaf("transaction_id", ShortField, Prim(Int(0))) &&
    l[1] == Leaf("message_type", ByteField, NoValue) &&
    l[2] == Leaf("omci", ByteField, Prim(Int(0x0a))) &&
    l[3] == Conditional(FixedLen(PacketField("omci_message", "OMCIGetRequest", request), 36, 0),
                        FieldEquals("message_type", GetRequestId)) &&
    l[4] == Conditional(FixedLen(PacketField("omci_message", "OMCIGetResponse", response), 36, 0),
                        FieldEquals("message_type", GetResponseId)) &&
    l[5] == Leaf("omci_trailer", IntField, Prim(Int(0x28)))
  }

  lemma FrameLayoutShaped()
    ensures FrameShaped(FrameLayout, GetRequestLayout, GetResponseLayout)
  {
  }

  /** The fields of an OMCI frame up to and including omci, read from s. */
  function FrameHead(s: seq<byte>): map<string, FieldValue>
    requires |s| >= 4
  {
    map["transaction_id" := U(s[0..2]), "message_type" := U(s[2..3]), "omci" := U(s[3..4])]
  }

  /** The three leading fields of a frame, read one by one. */
  lemma HeadSteps(l: seq<FieldDesc>, s: seq<byte>, patched: bool)
    requires |l| >= 3 && l[0] == Leaf("transaction_id", ShortField, Prim(Int(0)))
    requires l[1] == Leaf("message_type", ByteField, NoValue) && l[2] == Leaf("omci", ByteField, Prim(Int(0x0a)))
    requires |s| >= 5
    ensures DoDissectFrom(l, 0, map[], s, patched) == DoDissectFrom(l, 3, FrameHead(s), s[4..], patched)
  {
    var f1 := map["transaction_id" := U(s[0..2])];
    var f2 := f1["message_type" := U(s[2..3])];
    assert s[2..][..1] == s[2..3] && s[2..][1..] == s[3..];
    assert s[3..][..1] == s[3..4] && s[3..][1..] == s[4..];
    LeafStep(l, 0, map[], s, patched);
    LeafStep(l, 1, f1, s[2..], patched);
    LeafStep(l, 2, f2, s[3..], patched);
    assert FrameHead(s) == f2["omci" := U(s[3..4])];
  }

  /** The message a frame reads from its 36-byte region: the inner packet's
      dissection with an all-zero payload dropped. */
  function MessageIn(className: string, inner: seq<FieldDesc>, region: seq<byte>): Result<FieldValue, OmciError>
  {
    match Dissected(className, inner, region)
    case Err(e) => Err(e)
    case Ok(m) => Ok(DropPadding(m, 0))
  }

  /** A message field whose message type is not the frame's: it reads
      nothing and stores None. */
  lemma MessageSkipped(l: seq<FieldDesc>, j: nat, fields: map<string, FieldValue>, s: seq<byte>, patched: bool,
                       className: string, inner: seq<FieldDesc>, id: int)
    requires j < |l| && s != []
    requires l[j] == Conditional(FixedLen(PacketField("omci_message", className, inner), 36, 0), FieldEquals("message_type", id))
    requires Getattr(l, fields, "message_type") != Prim(Int(id))
    ensures DoDissectFrom(l, j, fields, s, patched)
         == DoDissectFrom(l, j + 1, Store(fields, "omci_message", NoValue, patched), s, patched)
  {
    var packet := PacketField("omci_message", className, inner);
    assert Name(FixedLen(packet, 36, 0)) == Name(packet) == "omci_message";
    assert Name(l[j]) == "omci_message";
    assert GetField(l, fields, l[j], s) == Ok((s, NoValue));
  }

  /** A message field whose message type is the frame's: it reads the
      message from the next 36 bytes, and its error is the frame's. */
  lemma MessageRead(l: seq<FieldDesc>, j: nat, fields: map<string, FieldValue>, s: seq<byte>, patched: bool,
                    className: string, inner: seq<FieldDesc>, id: int)
    requires j < |l| && |s| >= 36
    requires l[j] == Conditional(FixedLen(PacketField("omci_message", className, inner), 36, 0), FieldEquals("message_type", id))
    requires Getattr(l, fields, "message_type") == Prim(Int(id))
    ensures var m := MessageIn(className, inner, s[..36]);
            (m.Err? ==> DoDissectFrom(l, j, fields, s, patched) == (fields, Err(m.error))) &&
            (m.Ok? ==> DoDissectFrom(l, j, fields, s, patched)
                         == DoDissectFrom(l, j + 1, fields["omci_message" := m.value], s[36..], patched))
  {
    var packet := PacketField("omci_message", className, inner);
    var region := s[..36];
    var d := Dissected(className, inner, region);
    assert Name(FixedLen(packet, 36, 0)) == Name(packet) == "omci_message";
    assert Name(l[j]) == "omci_message";
    assert GetField(l, fields, l[j], s) == GetField(l, fields, FixedLen(packet, 36, 0), s);
    if d.Ok? {
      assert GetField(l, fields, packet, region) == Ok(([], d.value));
      assert [] + s[36..] == s[36..];
      assert GetField(l, fields, l[j], s) == Ok((s[36..], DropPadding(d.value, 0)));
      assert !DropPadding(d.value, 0).NoValue?;
    } else {
      assert GetField(l, fields, packet, region) == Err(d.error);
    }
  }

  /** A 0x49 frame field by field: the request message from the 36-byte
      region, then the response field's None under the same name (kept out
      by the patched rule, stored by the library's), then the trailer. */
  lemma RequestFrameSteps(l: seq<FieldDesc>, request: seq<FieldDesc>, response: seq<FieldDesc>, s: seq<byte>, patched: bool)
    requires FrameShaped(l, request, response)
    requires |s| >= 44 && s[2] == GetRequestId
    ensures var m := MessageIn("OMCIGetRequest", request, s[4..40]);
            var out := DoDissectFrom(l, 0, map[], s, patched);
            (m.Err? ==> out == (FrameHead(s), Err(m.error))) &&
            (m.Ok? ==> out == (Store(FrameHead(s)["omci_message" := m.value], "omci_message", NoValue, patched)
                                 ["omci_trailer" := U(s[40..44])], Ok(s[44..])))
  {
    RequestMessageStep(l, request, response, s, patched);
    var m := MessageIn("OMCIGetRequest", request, s[4..40]);
    if m.Ok? {
      SingleByte(s[2..3]);
      var f4 := FrameHead(s)["omci_message" := m.value];
      assert Getattr(l, f4, "message_type") == Prim(Int(GetRequestId));
      RequestTailSteps(l, request, response, s, patched, f4);
    }
  }

  /** The head of a 0x49 frame, then its request message. */
  lemma RequestMessageStep(l: seq<FieldDesc>, request: seq<FieldDesc>, response: seq<FieldDesc>, s: seq<byte>, patched: bool)
    requires FrameShaped(l, request, response)
    requires |s| >= 44 && s[2] == GetRequestId
    ensures var m := MessageIn("OMCIGetRequest", request, s[4..40]);
            (m.Err? ==> DoDissectFrom(l, 0, map[], s, patched) == (FrameHead(s), Err(m.error))) &&
            (m.Ok? ==> DoDissectFrom(l, 0, map[], s, patched)
                         == DoDissectFrom(l, 4, FrameHead(s)["omci_message" := m.value], s[40..], patched))
  {
    HeadSteps(l, s, patched);
    SingleByte(s[2..3]);
    assert s[4..][..36] == s[4..40] && s[4..][36..] == s[40..];
    MessageRead(l, 3, FrameHead(s), s[4..], patched, "OMCIGetRequest", request, GetRequestId);
  }

  /** The response field and the trailer of a 0x49 frame. */
  lemma RequestTailSteps(l: seq<FieldDesc>, request: seq<FieldDesc>, response: seq<FieldDesc>, s: seq<byte>, patched: bool,
                         f4: map<string, FieldValue>)
    requires FrameShaped(l, request, response)
    requires |s| >= 44 && Getattr(l, f4, "message_type") == Prim(Int(GetRequestId))
    ensures DoDissectFrom(l, 4, f4, s[40..], patched)
         == (Store(f4, "omci_message", NoValue, patched)["omci_trailer" := U(s[40..44])], Ok(s[44..]))
  {
    MessageSkipped(l, 4, f4, s[40..], patched, "OMCIGetResponse", response, GetResponseId);
    var f5 := Store(f4, "omci_message", NoValue, patched);
    assert s[40..][..4] == s[40..44] && s[40..][4..] == s[44..];
    LeafStep(l, 5, f5, s[40..], patched);
  }

  /** The head of a frame whose type is not 0x49, then the request field's None. */
  lemma RequestSkippedSteps(l: seq<FieldDesc>, request: seq<FieldDesc>, response: seq<FieldDesc>, s: seq<byte>, patched: bool)
    requires FrameShaped(l, request, response)
    requires |s| >= 5 && s[2] != GetRequestId
    ensures DoDissectFrom(l, 0, map[], s, patched)
         == DoDissectFrom(l, 4, FrameHead(s)["omci_message" := NoValue], s[4..], patched)
  {
    HeadSteps(l, s, patched);
    SingleByte(s[2..3]);
    MessageSkipped(l, 3, FrameHead(s), s[4..], patched, "OMCIGetRequest", request, GetRequestId);
    assert Store(FrameHead(s), "omci_message", NoValue, patched) == FrameHead(s)["omci_message" := NoValue];
  }

  /** A 0x29 frame field by field: the request field stores None, then the
      response message read from the 36-byte region is stored over it, then
      the trailer. */
  lemma ResponseFrameSteps(l: seq<FieldDesc>, request: seq<FieldDesc>, response: seq<FieldDesc>, s: seq<byte>, patched: bool)
    requires FrameShaped(l, request, response)
    requires |s| >= 44 && s[2] == GetResponseId
    ensures var m := MessageIn("OMCIGetResponse", response, s[4..40]);
            var out := DoDissectFrom(l, 0, map[], s, patched);
            (m.Err? ==> out == (FrameHead(s)["omci_message" := NoValue], Err(m.error))) &&
            (m.Ok? ==> out == (FrameHead(s)["omci_message" := m.value]["omci_trailer" := U(s[40..44])], Ok(s[44..])))
  {
    RequestSkippedSteps(l, request, response, s, patched);
    ResponseTailSteps(l, request, response, s, patched);
  }

  /** The response message and the trailer of a 0x29 frame. */
  lemma ResponseTailSteps(l: seq<FieldDesc>, request: seq<FieldDesc>, response: seq<FieldDesc>, s: seq<byte>, patched: bool)
    requires FrameShaped(l, request, response)
    requires |s| >= 44 && s[2] == GetResponseId
    ensures var m := MessageIn("OMCIGetResponse", response, s[4..40]);
            var f4 := FrameHead(s)["omci_message" := NoValue];
            var out := DoDissectFrom(l, 4, f4, s[4..], patched);
            (m.Err? ==> out == (f4, Err(m.error))) &&
            (m.Ok? ==> out == (FrameHead(s)["omci_message" := m.value]["omci_trailer" := U(s[40..44])], Ok(s[44..])))
  {
    SingleByte(s[2..3]);
    var f4 := FrameHead(s)["omci_message" := NoValue];
    assert Getattr(l, f4, "message_type") == Prim(Int(GetResponseId));
    assert s[4..][..36] == s[4..40] && s[4..][36..] == s[40..];
    MessageRead(l, 4, f4, s[4..], patched, "OMCIGetResponse", response, GetResponseId);
    var m := MessageIn("OMCIGetResponse", response, s[4..40]);
    if m.Ok? {
      var f5 := FrameHead(s)["omci_message" := m.value];
      assert f4["omci_message" := m.value] == f5;
      assert s[40..][..4] == s[40..44] && s[40..][4..] == s[44..];
      LeafStep(l, 5, f5, s[40..], patched);
    }
  }

  /** A frame of any other message type: neither message field is read, and
      the trailer comes right after omci. */
  lemma UnknownFrameSteps(l: seq<FieldDesc>, request: seq<FieldDesc>, response: seq<FieldDesc>, s: seq<byte>, patched: bool)
    requires FrameShaped(l, request, response)
    requires |s| >= 8 && s[2] != GetRequestId && s[2] != GetResponseId
    ensures DoDissectFrom(l, 0, map[], s, patched)
         == (FrameHead(s)["omci_message" := NoValue]["omci_trailer" := U(s[4..8])], Ok(s[8..]))
  {
    RequestSkippedSteps(l, request, response, s, patched);
    UnknownTailSteps(l, request, response, s, patched);
  }

  lemma UnknownTailSteps(l: seq<FieldDesc>, request: seq<FieldDesc>, response: seq<FieldDesc>, s: seq<byte>, patched: bool)
    requires FrameShaped(l, request, response)
    requires |s| >= 8 && s[2] != GetRequestId && s[2] != GetResponseId
    ensures DoDissectFrom(l, 4, FrameHead(s)["omci_message" := NoValue], s[4..], patched)
         == (FrameHead(s)["omci_message" := NoValue]["omci_trailer" := U(s[4..8])], Ok(s[8..]))
  {
    SingleByte(s[2..3]);
    var f4 := FrameHead(s)["omci_message" := NoValue];
    assert Getattr(l, f4, "message_type") == U(s[2..3]);
    MessageSkipped(l, 4, f4, s[4..], patched, "OMCIGetResponse", response, GetResponseId);
    assert Store(f4, "omci_message", NoValue, patched) == f4;
    assert s[4..][..4] == s[4..8] && s[4..][4..] == s[8..];
    LeafStep(l, 5, f4, s[4..], patched);
  }

  /** The Get request a 0x49 frame carries in bytes 4..40, with an all-zero
      tail of the region dropped. */
  function GetRequestIn(s: seq<byte>): FieldValue
    requires |s| >= 40
  {
    var t := s[4..40];
    DropPadding(Message("OMCIGetRequest",
                        map["entity_class" := U(t[0..2]), "entity_id" := U(t[2..4]), "attributes_mask" := U(t[4..6])],
                        t[6..]), 0)
  }

  lemma GetRequestMessage(s: seq<byte>)
    requires |s| >= 40
    ensures MessageIn("OMCIGetRequest", GetRequestLayout, s[4..40]) == Ok(GetRequestIn(s))
  {
    GetRequestDissected(s[4..40]);
  }

  /** With the patched store rule a Get request frame keeps its message: the
      later Get response field, whose condition is false, reads None and
      does not overwrite it. The trailer follows the 36-byte region. */
  lemma GetRequestFrameKeepsMessage(s: seq<byte>)
    requires |s| >= 44 && s[2] == GetRequestId
    ensures var (fields, out) := DoDissectFrom(FrameLayout, 0, map[], s, true);
            out == Ok(s[44..]) &&
            fields == FrameHead(s)["omci_message" := GetRequestIn(s)]["omci_trailer" := U(s[40..44])]
  {
    FrameLayoutShaped();
    GetRequestMessage(s);
    RequestFrameSteps(FrameLayout, GetRequestLayout, GetResponseLayout, s, true);
  }

  /** With the library's store rule the same frame loses its message: the
      false Get response condition stores None over it. */
  lemma LibraryRuleLosesGetRequest(s: seq<byte>)
    requires |s| >= 44 && s[2] == GetRequestId
    ensures var (fields, out) := DoDissectFrom(FrameLayout, 0, map[], s, false);
            out == Ok(s[44..]) && "omci_message" in fields && fields["omci_message"] == NoValue
  {
    FrameLayoutShaped();
    GetRequestMessage(s);
    RequestFrameSteps(FrameLayout, GetRequestLayout, GetResponseLayout, s, false);
  }

  /** A message type other than 0x49 and 0x29 selects no message: omci_message
      is None and the trailer is read from bytes 4..8, right after omci. */
  lemma UnknownMessageType(s: seq<byte>, patched: bool)
    requires |s| >= 8 && s[2] != GetRequestId && s[2] != GetResponseId
    ensures var (fields, out) := DoDissectFrom(FrameLayout, 0, map[], s, patched);
            out == Ok(s[8..]) &&
            fields == FrameHead(s)["omci_message" := NoValue]["omci_trailer" := U(s[4..8])]
  {
    FrameLayoutShaped();
    UnknownFrameSteps(FrameLayout, GetRequestLayout, GetResponseLayout, s, patched);
  }

  /** A Get response frame: the Get request field reads None first, then the
      Get response message is stored over it; an error inside the message is
      the error of the frame. */
  lemma GetResponseFrame(s: seq<byte>)
    requires |s| >= 44 && s[2] == GetResponseId
    ensures var (fields, out) := DoDissectFrom(FrameLayout, 0, map[], s, true);
            var m := Dissected("OMCIGetResponse", GetResponseLayout, s[4..40]);
            (m.Err? ==> out == Err(m.error) && fields == FrameHead(s)["omci_message" := NoValue]) &&
            (m.Ok? ==> out == Ok(s[44..]) &&
                       fields == FrameHead(s)["omci_message" := DropPadding(m.value, 0)]["omci_trailer" := U(s[40..44])])
  {
    FrameLayoutShaped();
    ResponseFrameSteps(FrameLayout, GetRequestLayout, GetResponseLayout, s, true);
  }

  /** The four leading fields of a Get response, read from t. */
  function ResponseHead(t: seq<byte>): map<string, FieldValue>
    requires |t| >= 7
  {
    map["entity_class" := U(t[0..2]), "entity_id" := U(t[2..4]),
        "success_code" := U(t[4..5]), "attributes_mask" := U(t[5..7])]
  }

  /** What OMCIData reads after the leading fields of a Get response. */
  function ResponseData(t: seq<byte>): Result<(seq<byte>, map<string, Value>), OmciError>
    requires |t| >= 7
  {
    GetfieldSpec(Some(FromBigEndian(t[0..2])), Some(FromBigEndian(t[5..7])), t[7..])
  }

  /** The fields of a layout shaped like OMCIGetResponse's. */
  predicate ResponseShaped(l: seq<FieldDesc>)
  {
    |l| == 5 &&
    l[0] == Leaf("entity_class", ShortField, NoValue) && l[1] == Leaf("entity_id", ShortField, Prim(Int(0))) &&
    l[2] == Leaf("success_code", ByteField, Prim(Int(0))) && l[3] == Leaf("attributes_mask", ShortField, NoValue) &&
    l[4] == Conditional(OmciData("data", "entity_class", "attributes_mask"), FieldEquals("success_code", 0))
  }

  lemma ResponseHeadRead(l: seq<FieldDesc>, t: seq<byte>)
    requires ResponseShaped(l) && |t| >= 7
    ensures DoDissectFrom(l, 0, map[], t, false) == DoDissectFrom(l, 4, ResponseHead(t), t[7..], false)
  {
    var f1 := map["entity_class" := U(t[0..2])];
    var f2 := f1["entity_id" := U(t[2..4])];
    var f3 := f2["success_code" := U(t[4..5])];
    assert t[2..][..2] == t[2..4] && t[2..][2..] == t[4..];
    assert t[4..][..1] == t[4..5] && t[4..][1..] == t[5..];
    assert t[5..][..2] == t[5..7] && t[5..][2..] == t[7..];
    LeafStep(l, 0, map[], t, false);
    LeafStep(l, 1, f1, t[2..], false);
    LeafStep(l, 2, f2, t[4..], false);
    LeafStep(l, 3, f3, t[5..], false);
    assert ResponseHead(t) == f3["attributes_mask" := U(t[5..7])];
  }

  /** What a Get response region dissects to, case by case: with no byte
      after the mask, data is never read; with success_code other than 0,
      data is None and every byte after the mask is payload; with
      success_code 0 the data is what OMCIData reads for the message's class
      and mask, and an error there is the error of the whole message. */
  function ResponseOf(t: seq<byte>): Result<FieldValue, OmciError>
    requires |t| >= 7
  {
    if |t| == 7 then Ok(Message("OMCIGetResponse", ResponseHead(t), []))
    else if t[4] != 0 then Ok(Message("OMCIGetResponse", ResponseHead(t)["data" := NoValue], t[7..]))
    else
      match ResponseData(t)
      case Err(e) => Err(e)
      case Ok((rest, d)) => Ok(Message("OMCIGetResponse", ResponseHead(t)["data" := AttributeData(d)], rest))
  }

  /** A Get response carries attribute data only when success_code is 0. */
  lemma GetResponseData(t: seq<byte>)
    requires |t| >= 7
    ensures Dissected("OMCIGetResponse", GetResponseLayout, t) == ResponseOf(t)
  {
    GetResponseLayoutShaped();
    ResponseDataRead(GetResponseLayout, t);
  }

  lemma GetResponseLayoutShaped()
    ensures ResponseShaped(GetResponseLayout)
  {
  }

  lemma ResponseDataRead(l: seq<FieldDesc>, t: seq<byte>)
    requires ResponseShaped(l) && |t| >= 7
    ensures Dissected("OMCIGetResponse", l, t) == ResponseOf(t)
  {
    ResponseHeadRead(l, t);
    var head := ResponseHead(t);
    SingleByte(t[4..5]);
    assert Getattr(l, head, "success_code") == U(t[4..5]);
    if |t| > 7 {
      var data := l[4];
      if t[4] == 0 {
        assert Getattr(l, head, "entity_class") == U(t[0..2]);
        assert Getattr(l, head, "attributes_mask") == U(t[5..7]);
        assert GetField(l, head, data.fld, t[7..]) == match ResponseData(t)
          case Err(e) => Err(e)
          case Ok((rest, d)) => Ok((rest, AttributeData(d)));
      } else {
        assert GetField(l, head, data, t[7..]) == Ok((t[7..], NoValue));
      }
    }
  }

  /** The Get request frame for class 6, entity 0 and mask 0x400 (the mask
      of administrative_state): 30 zero bytes pad the 36-byte region and are
      dropped, and nothing is left over. */
  function ExampleGetRequest(): seq<byte>
  {
    [0x00, 0x00, 0x49, 0x0a, 0x00, 0x06, 0x00, 0x00, 0x04, 0x00] + Zeros(30) + [0x00, 0x00, 0x00, 0x28]
  }

  lemma ExampleGetRequestDissected()
    ensures DoDissectFrom(FrameLayout, 0, map[], ExampleGetRequest(), true)
         == (map["transaction_id" := Prim(Int(0)), "message_type" := Prim(Int(0x49)), "omci" := Prim(Int(0x0a)),
                 "omci_message" := Message("OMCIGetRequest",
                                           map["entity_class" := Prim(Int(6)), "entity_id" := Prim(Int(0)),
                                               "attributes_mask" := Prim(Int(0x400))],
                                           []),
                 "omci_trailer" := Prim(Int(0x28))],
             Ok([]))
  {
    var b := ExampleGetRequest();
    var head: seq<byte> := [0x00, 0x00, 0x49, 0x0a, 0x00, 0x06, 0x00, 0x00, 0x04, 0x00];
    assert |b| == 44 && b[2] == 0x49;
    assert b[..40] == head + Zeros(30);
    var t := b[4..40];
    assert t == (head + Zeros(30))[4..] == head[4..] + Zeros(30);
    assert t[0..2] == [0, 6] && t[2..4] == [0, 0] && t[4..6] == [4, 0];
    assert t[6..] == Zeros(30);
    assert AllPad(Zeros(30), 0);
    assert b[0..2] == [0, 0] && b[2..3] == [0x49] && b[3..4] == [0x0a];
    assert b[40..44] == [0, 0, 0, 0x28] && b[44..] == [];
    BigEndianValues();
    GetRequestFrameKeepsMessage(b);
  }

  /** The values of the short big-endian byte strings in the examples. */
  lemma BigEndianValues()
    ensures FromBigEndian([0, 0]) == 0 && FromBigEndian([0, 6]) == 6 && FromBigEndian([4, 0]) == 0x400
    ensures FromBigEndian([0x49]) == 0x49 && FromBigEndian([0x29]) == 0x29 && FromBigEndian([0x0a]) == 0x0a
    ensures FromBigEndian([0]) == 0 && FromBigEndian([0, 0, 0, 0x28]) == 0x28
  {
    assert [0, 0][..1] == [0] && [0, 6][..1] == [0] && [4, 0][..1] == [4];
    assert [0x49][..0] == [] && [0x29][..0] == [] && [0x0a][..0] == [] && [0][..0] == [] && [4][..0] == [];
    assert [0, 0, 0, 0x28][..3] == [0, 0, 0] && [0, 0, 0][..2] == [0, 0];
  }

  /** The Get response frame answering it with administrative_state 1: the
      attribute data holds that one value, and the 28 zero bytes after it
      are padding and dropped. */
  function ExampleGetResponse(): seq<byte>
  {
    [0x00, 0x00, 0x29, 0x0a, 0x00, 0x06, 0x00, 0x00, 0x00, 0x04, 0x00, 0x01] + Zeros(28) + [0x00, 0x00, 0x00, 0x28]
  }

  /** What dissecting that response gives: the data holds administrative_state 1. */
  function ExampleResponseFields(): (map<string, FieldValue>, Result<seq<byte>, OmciError>)
  {
    (map["transaction_id" := Prim(Int(0)), "message_type" := Prim(Int(0x29)), "omci" := Prim(Int(0x0a)),
         "omci_message" := Message("OMCIGetResponse",
                                   map["entity_class" := Prim(Int(6)), "entity_id" := Prim(Int(0)),
                                       "success_code" := Prim(Int(0)), "attributes_mask" := Prim(Int(0x400)),
                                       "data" := AttributeData(map["administrative_state" := Int(1)])],
                                   []),
         "omci_trailer" := Prim(Int(0x28))],
     Ok([]))
  }

  lemma ExampleGetResponseDissected()
    ensures DoDissectFrom(FrameLayout, 0, map[], ExampleGetResponse(), true) == ExampleResponseFields()
  {
    ExampleResponseFrame(ExampleGetResponse());
  }

  lemma ExampleResponseFrame(b: seq<byte>)
    requires b == ExampleGetResponse()
    ensures DoDissectFrom(FrameLayout, 0, map[], b, true) == ExampleResponseFields()
  {
    var head: seq<byte> := [0x00, 0x00, 0x29, 0x0a, 0x00, 0x06, 0x00, 0x00, 0x00, 0x04, 0x00, 0x01];
    assert |b| == 44 && b[2] == 0x29;
    assert b[..40] == head + Zeros(28);
    var t := b[4..40];
    assert t == (head + Zeros(28))[4..] == head[4..] + Zeros(28);
    ExampleResponseRegion(t);
    var msg := Dissected("OMCIGetResponse", GetResponseLayout, t).value;
    assert AllPad(Zeros(28), 0);
    assert DropPadding(msg, 0) == ExampleResponseFields().0["omci_message"];
    assert b[44..] == [];
    ExampleResponseMap(b, DropPadding(msg, 0));
    GetResponseFrame(b);
  }

  lemma ExampleResponseMap(b: seq<byte>, msg: FieldValue)
    requires b == ExampleGetResponse() && msg == ExampleResponseFields().0["omci_message"]
    ensures FrameHead(b)["omci_message" := msg]["omci_trailer" := U(b[40..44])] == ExampleResponseFields().0
  {
    assert b[0..2] == [0, 0] && b[2..3] == [0x29] && b[3..4] == [0x0a] && b[40..44] == [0, 0, 0, 0x28];
    BigEndianValues();
  }

  /** The 36-byte region of that response: its four leading fields, the one
      attribute value, and 28 bytes of payload. */
  lemma ExampleResponseRegion(t: seq<byte>)
    requires t == [0x00, 0x06, 0x00, 0x00, 0x00, 0x04, 0x00, 0x01] + Zeros(28)
    ensures Dissected("OMCIGetResponse", GetResponseLayout, t)
         == Ok(Message("OMCIGetResponse",
                       map["entity_class" := Prim(Int(6)), "entity_id" := Prim(Int(0)),
                           "success_code" := Prim(Int(0)), "attributes_mask" := Prim(Int(0x400)),
                           "data" := AttributeData(map["administrative_state" := Int(1)])],
                       Zeros(28)))
  {
    assert t[0..2] == [0, 6] && t[2..4] == [0, 0] && t[4..5] == [0] && t[5..7] == [4, 0];
    assert t[7..] == [1] + Zeros(28);
    BigEndianValues();
    AdministrativeStateRoundTrip(1, Zeros(28));
    assert ResponseData(t) == Ok((Zeros(28), map["administrative_state" := Int(1)]));
    GetResponseData(t);
    assert ResponseOf(t) == Ok(Message("OMCIGetResponse",
                                       ResponseHead(t)["data" := AttributeData(map["administrative_state" := Int(1)])],
                                       Zeros(28)));
  }
}
