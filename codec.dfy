/** The attribute-set codec: an entity instance (EntityClass with its _data),
    EntityClass.serialize and attribute_indices_from_data, and the OMCIData
    field that writes and reads the attributes a mask selects. Every walk goes
    through the selected indices in ascending order and concatenates (or
    consumes) one fixed-width field per index. */
module EntityCodec {
  import opened Wrappers
  import opened Bits
  import opened BitPos
  import opened Fields
  import opened Schema

  /** An EntityClass instance: its class and the attribute values it was built with. */
  datatype Entity = Entity(cls: EntityClass, data: map<string, Value>)

  /** Every key of the data names an attribute of the class. */
  predicate WellFormed(e: Entity)
  {
    forall k :: k in e.data ==> k in NameToIndexMap(e.cls.attributes)
  }

  /** EntityClass.__init__(**kw): every keyword must be an attribute name,
      otherwise the assertion fails. */
  method NewEntity(cls: EntityClass, kw: map<string, Value>) returns (r: Result<Entity, OmciError>)
    ensures r.Ok? <==> forall k :: k in kw ==> k in NameToIndexMap(cls.attributes)
    ensures r.Ok? ==> r.value == Entity(cls, kw) && WellFormed(r.value)
    ensures r.Err? ==> r.error.NotAnAttribute? && r.error.name in kw &&
                       r.error.name !in NameToIndexMap(cls.attributes)
  {
    var indexOf := NameToIndexMap(cls.attributes);
    var unchecked := kw.Keys;
    while unchecked != {}
      invariant unchecked <= kw.Keys
      invariant forall k :: k in kw && k !in unchecked ==> k in indexOf
      decreases |unchecked|
    {
      var k :| k in unchecked;
      if k !in indexOf {
        return Err(NotAnAttribute(k));
      }
      unchecked := unchecked - {k};
    }
    return Ok(Entity(cls, kw));
  }

  /** The indices of the keys of the data. */
  function KeyIndices(e: Entity): set<int>
  {
    var indexOf := NameToIndexMap(e.cls.attributes);
    set k | k in e.data && k in indexOf :: indexOf[k] as int
  }

  /** attribute_indices_from_data: sorted(index of k for k in _data). */
  function AttributeIndicesFromData(e: Entity): (r: seq<int>)
    requires WellFormed(e)
    ensures StrictlySorted(r)
    ensures forall i :: i in r <==> i in KeyIndices(e)
  {
    KeyIndicesInTable(e);
    AscendingMembersSpec(KeyIndices(e), 0, |e.cls.attributes|);
    AscendingMembers(KeyIndices(e), 0, |e.cls.attributes|)
  }

  lemma KeyIndicesInTable(e: Entity)
    ensures forall i :: i in KeyIndices(e) ==> 0 <= i < |e.cls.attributes|
  {
    forall i | i in KeyIndices(e) ensures 0 <= i < |e.cls.attributes| {
      var k :| k in e.data && k in NameToIndexMap(e.cls.attributes) && NameToIndexMap(e.cls.attributes)[k] as int == i;
      NameToIndexMapLast(e.cls.attributes, k);
    }
  }

  /** attribute_indices_from_data lists, ascending and once each, exactly the
      indices of the supplied keys; each lies in the attribute table and names
      its key. */
  lemma AttributeIndicesFromDataSpec(e: Entity, i: int)
    requires WellFormed(e)
    ensures StrictlySorted(AttributeIndicesFromData(e))
    ensures i in AttributeIndicesFromData(e) <==>
      exists k :: k in e.data && NameToIndexMap(e.cls.attributes)[k] == i
    ensures i in AttributeIndicesFromData(e) ==>
      0 <= i < |e.cls.attributes| && e.cls.attributes[i].name in e.data
  {
    var attrs := e.cls.attributes;
    var indexOf := NameToIndexMap(attrs);
    AscendingMembersSpec(KeyIndices(e), 0, |attrs|);
    if exists k :: k in e.data && indexOf[k] == i {
      var k :| k in e.data && indexOf[k] == i;
      NameToIndexMapLast(attrs, k);
      assert i in KeyIndices(e);
    }
    if i in KeyIndices(e) {
      var k :| k in e.data && k in indexOf && indexOf[k] as int == i;
      NameToIndexMapLast(attrs, k);
    }
  }

  /** The field of one selected index, encoded: a missing index raises
      IndexError, a missing value KeyError, a value the field cannot pack
      struct.error. */
  function EncodeAttribute(attrs: seq<Attribute>, data: map<string, Value>, index: int): Result<seq<byte>, OmciError>
  {
    if !(0 <= index < |attrs|) then Err(NoSuchAttribute(index))
    else
      var a := attrs[index];
      if a.name !in data then Err(MissingValue(a.name))
      else
        match Encode(a.codec, data[a.name])
        case None => Err(Unencodable(a.name))
        case Some(b) => Ok(b)
  }

  /** The fields of the selected indices, encoded one after the other; the
      first failing index decides the error. */
  function EncodeFields(attrs: seq<Attribute>, data: map<string, Value>, indices: seq<int>): Result<seq<byte>, OmciError>
    decreases |indices|
  {
    if indices == [] then Ok([])
    else
      match EncodeFields(attrs, data, indices[..|indices| - 1])
      case Err(e) => Err(e)
      case Ok(prefix) =>
        match EncodeAttribute(attrs, data, indices[|indices| - 1])
        case Err(e) => Err(e)
        case Ok(b) => Ok(prefix + b)
  }

  /** The field of one selected index, read from the front of s: a missing
      index raises IndexError, too few bytes struct.error. */
  function DecodeAttribute(attrs: seq<Attribute>, index: int, s: seq<byte>): Result<(string, Value, seq<byte>), OmciError>
  {
    if !(0 <= index < |attrs|) then Err(NoSuchAttribute(index))
    else
      var a := attrs[index];
      match Decode(a.codec, s)
      case None => Err(Truncated)
      case Some((v, rest)) => Ok((a.name, v, rest))
  }

  /** The fields of the selected indices read one after the other into a dict
      (data[name] = value), with the bytes left over. */
  function DecodeFields(attrs: seq<Attribute>, indices: seq<int>, s: seq<byte>): Result<(map<string, Value>, seq<byte>), OmciError>
    decreases |indices|
  {
    if indices == [] then Ok((map[], s))
    else
      match DecodeFields(attrs, indices[..|indices| - 1], s)
      case Err(e) => Err(e)
      case Ok((data, rest)) =>
        match DecodeAttribute(attrs, indices[|indices| - 1], rest)
        case Err(e) => Err(e)
        case Ok((name, v, rest')) => Ok((data[name := v], rest'))
  }

  predicate InRange(attrs: seq<Attribute>, indices: seq<int>)
  {
    forall i :: i in indices ==> 0 <= i < |attrs|
  }

  /** The number of bytes the selected fields take. */
  function FieldsWidth(attrs: seq<Attribute>, indices: seq<int>): nat
    decreases |indices|
  {
    if indices == [] then 0
    else
      var last := indices[|indices| - 1];
      FieldsWidth(attrs, indices[..|indices| - 1]) + (if 0 <= last < |attrs| then Width(attrs[last].codec) else 0)
  }

  /** The names of the selected attributes. */
  function Names(attrs: seq<Attribute>, indices: seq<int>): set<string>
  {
    set i | i in indices && 0 <= i < |attrs| :: attrs[i].name
  }

  /** The entries of data whose names are in names. */
  function Restrict(data: map<string, Value>, names: set<string>): map<string, Value>
  {
    map n | n in names && n in data :: data[n]
  }

  lemma NamesStep(attrs: seq<Attribute>, indices: seq<int>)
    requires indices != [] && 0 <= indices[|indices| - 1] < |attrs|
    ensures Names(attrs, indices) == Names(attrs, indices[..|indices| - 1]) + {attrs[indices[|indices| - 1]].name}
  {
    var init, last := indices[..|indices| - 1], indices[|indices| - 1];
    assert indices == init + [last];
    assert last in indices;
  }

  lemma RestrictStep(data: map<string, Value>, names: set<string>, n: string)
    requires n in data
    ensures Restrict(data, names)[n := data[n]] == Restrict(data, names + {n})
  {
  }

  /** Index i can be written: it is in the table, has a value, and the value packs. */
  predicate Encodable(attrs: seq<Attribute>, data: map<string, Value>, i: int)
  {
    0 <= i < |attrs| && attrs[i].name in data && Encode(attrs[i].codec, data[attrs[i].name]).Some?
  }

  /** Index i can be written and read back unchanged. */
  predicate Fitting(attrs: seq<Attribute>, data: map<string, Value>, i: int)
  {
    0 <= i < |attrs| && attrs[i].name in data && Fits(attrs[i].codec, data[attrs[i].name])
  }

  /** Encoding succeeds exactly when every selected index is encodable, and
      then yields the sum of the selected fields' widths. */
  lemma {:induction false} EncodeFieldsOk(attrs: seq<Attribute>, data: map<string, Value>, indices: seq<int>)
    ensures EncodeFields(attrs, data, indices).Ok? <==> forall i :: i in indices ==> Encodable(attrs, data, i)
    ensures EncodeFields(attrs, data, indices).Ok? ==>
      InRange(attrs, indices) && |EncodeFields(attrs, data, indices).value| == FieldsWidth(attrs, indices)
    decreases |indices|
  {
    if indices != [] {
      var init, last := indices[..|indices| - 1], indices[|indices| - 1];
      EncodeFieldsOk(attrs, data, init);
      assert indices == init + [last];
      assert last in indices;
      assert forall i :: i in init ==> i in indices;
      assert forall i :: i in indices ==> i in init || i == last;
    }
  }

  /** Once an index fails, the indices after it do not matter. */
  lemma {:induction false} EncodeFieldsErrorStays(attrs: seq<Attribute>, data: map<string, Value>, indices: seq<int>, n: nat)
    requires n <= |indices| && EncodeFields(attrs, data, indices[..n]).Err?
    ensures EncodeFields(attrs, data, indices) == EncodeFields(attrs, data, indices[..n])
    decreases |indices| - n
  {
    if n < |indices| {
      assert indices[..n + 1][..n] == indices[..n];
      EncodeFieldsErrorStays(attrs, data, indices, n + 1);
    } else {
      assert indices[..n] == indices;
    }
  }

  /** Decoding succeeds exactly when every selected index is in the table and
      s holds all the selected fields; it then consumes exactly their widths
      and returns a dict keyed by exactly the selected names. */
  lemma {:induction false} DecodeFieldsOk(attrs: seq<Attribute>, indices: seq<int>, s: seq<byte>)
    ensures DecodeFields(attrs, indices, s).Ok? <==> InRange(attrs, indices) && |s| >= FieldsWidth(attrs, indices)
    ensures DecodeFields(attrs, indices, s).Ok? ==>
      DecodeFields(attrs, indices, s).value.1 == s[FieldsWidth(attrs, indices)..] &&
      DecodeFields(attrs, indices, s).value.0.Keys == Names(attrs, indices)
    decreases |indices|
  {
    if indices != [] {
      var init, last := indices[..|indices| - 1], indices[|indices| - 1];
      DecodeFieldsOk(attrs, init, s);
      InRangeStep(attrs, indices);
      var w := FieldsWidth(attrs, init);
      if DecodeFields(attrs, init, s).Ok? && 0 <= last < |attrs| {
        var rest := DecodeFields(attrs, init, s).value.1;
        assert rest == s[w..];
        var c := attrs[last].codec;
        if |s| >= w + Width(c) {
          assert rest[Width(c)..] == s[w + Width(c)..];
        }
        NamesStep(attrs, indices);
      }
    }
  }

  lemma InRangeStep(attrs: seq<Attribute>, indices: seq<int>)
    requires indices != []
    ensures InRange(attrs, indices) <==>
      InRange(attrs, indices[..|indices| - 1]) && 0 <= indices[|indices| - 1] < |attrs|
  {
    var init, last := indices[..|indices| - 1], indices[|indices| - 1];
    assert indices == init + [last];
    assert last in indices;
    assert forall i :: i in init ==> i in indices;
    assert forall i :: i in indices ==> i in init || i == last;
  }

  /** Once an index fails, the indices after it do not matter. */
  lemma {:induction false} DecodeFieldsErrorStays(attrs: seq<Attribute>, indices: seq<int>, s: seq<byte>, n: nat)
    requires n <= |indices| && DecodeFields(attrs, indices[..n], s).Err?
    ensures DecodeFields(attrs, indices, s) == DecodeFields(attrs, indices[..n], s)
    decreases |indices| - n
  {
    if n < |indices| {
      assert indices[..n + 1][..n] == indices[..n];
      DecodeFieldsErrorStays(attrs, indices, s, n + 1);
    } else {
      assert indices[..n] == indices;
    }
  }

  /** EncodeFields over one more index: the prefix, then that index. */
  lemma EncodeFieldsStep(attrs: seq<Attribute>, data: map<string, Value>, indices: seq<int>, n: nat)
    requires n < |indices|
    ensures EncodeFields(attrs, data, indices[..n + 1])
         == match EncodeFields(attrs, data, indices[..n])
            case Err(e) => Err(e)
            case Ok(prefix) =>
              match EncodeAttribute(attrs, data, indices[n])
              case Err(e) => Err(e)
              case Ok(b) => Ok(prefix + b)
  {
    assert indices[..n + 1][..n] == indices[..n];
  }

  /** DecodeFields over one more index: the prefix, then that index. */
  lemma DecodeFieldsStep(attrs: seq<Attribute>, indices: seq<int>, s: seq<byte>, n: nat)
    requires n < |indices|
    ensures DecodeFields(attrs, indices[..n + 1], s)
         == match DecodeFields(attrs, indices[..n], s)
            case Err(e) => Err(e)
            case Ok((data, rest)) =>
              match DecodeAttribute(attrs, indices[n], rest)
              case Err(e) => Err(e)
              case Ok((name, v, rest')) => Ok((data[name := v], rest'))
  {
    assert indices[..n + 1][..n] == indices[..n];
  }

  /** Decoding the encoding of the selected values, followed by anything,
      gives back those values and exactly what followed. */
  lemma {:induction false} EncodeDecodeFields(attrs: seq<Attribute>, data: map<string, Value>, indices: seq<int>, tail: seq<byte>)
    requires forall i :: i in indices ==> Fitting(attrs, data, i)
    ensures EncodeFields(attrs, data, indices).Ok?
    ensures DecodeFields(attrs, indices, EncodeFields(attrs, data, indices).value + tail)
         == Ok((Restrict(data, Names(attrs, indices)), tail))
    decreases |indices|
  {
    if indices == [] {
      assert Names(attrs, indices) == {};
      assert Restrict(data, Names(attrs, indices)) == map[];
      assert EncodeFields(attrs, data, indices).value + tail == tail;
    } else {
      var init, last := indices[..|indices| - 1], indices[|indices| - 1];
      assert last in indices;
      assert forall i :: i in init ==> i in indices;
      var a := attrs[last];
      var v := data[a.name];
      EncodeDecode(a.codec, v, tail);
      var b := Encode(a.codec, v).value;
      EncodeDecodeFields(attrs, data, init, b + tail);
      var p := EncodeFields(attrs, data, init).value;
      assert EncodeFields(attrs, data, indices) == Ok(p + b);
      assert p + b + tail == p + (b + tail);
      NamesStep(attrs, indices);
      RestrictStep(data, Names(attrs, init), a.name);
    }
  }

  /** The indices serialize walks: those of the mask when one is given,
      otherwise those of the supplied keys. */
  function SerializeIndices(e: Entity, mask: Option<nat>): seq<int>
    requires WellFormed(e)
  {
    match mask
    case Some(m) => AttributeIndicesFromMask(m)
    case None => AttributeIndicesFromData(e)
  }

  /** What serialize returns or raises: a missing value surfaces as
      OmciUninitializedFieldError instead of KeyError. */
  function SerializeSpec(e: Entity, mask: Option<nat>): Result<seq<byte>, OmciError>
    requires WellFormed(e)
  {
    match EncodeFields(e.cls.attributes, e.data, SerializeIndices(e, mask))
    case Err(MissingValue(name)) => Err(UninitializedField(name))
    case other => other
  }

  /** EntityClass.serialize(mask). */
  method Serialize(e: Entity, mask: Option<nat>) returns (r: Result<seq<byte>, OmciError>)
    requires WellFormed(e)
    ensures r == SerializeSpec(e, mask)
  {
    var attrs := e.cls.attributes;
    var indices;
    if mask.Some? {
      indices := AttributeIndicesFromMask(mask.value);
    } else {
      indices := AttributeIndicesFromData(e);
    }
    var bytes := [];
    for n := 0 to |indices|
      invariant EncodeFields(attrs, e.data, indices[..n]) == Ok(bytes)
    {
      EncodeFieldsStep(attrs, e.data, indices, n);
      var index := indices[n];
      if !(0 <= index < |attrs|) {
        EncodeFieldsErrorStays(attrs, e.data, indices, n + 1);
        return Err(NoSuchAttribute(index));
      }
      var field := attrs[index];
      if field.name !in e.data {
        EncodeFieldsErrorStays(attrs, e.data, indices, n + 1);
        return Err(UninitializedField(field.name));
      }
      var encoded := Encode(field.codec, e.data[field.name]);
      if encoded.None? {
        EncodeFieldsErrorStays(attrs, e.data, indices, n + 1);
        return Err(Unencodable(field.name));
      }
      bytes := bytes + encoded.value;
    }
    assert indices[..|indices|] == indices;
    return Ok(bytes);
  }

  /** Without a mask, serialize never lacks a value and never leaves the
      table: it fails only on a value its field cannot pack, and otherwise
      writes the fields of exactly the supplied keys. */
  lemma SerializeWithoutMask(e: Entity)
    requires WellFormed(e)
    ensures SerializeSpec(e, None).Ok? <==>
      forall k :: k in e.data ==> Encodable(e.cls.attributes, e.data, NameToIndexMap(e.cls.attributes)[k])
    ensures SerializeSpec(e, None).Err? ==> SerializeSpec(e, None).error.Unencodable?
  {
    var attrs := e.cls.attributes;
    var indexOf := NameToIndexMap(attrs);
    var indices := AttributeIndicesFromData(e);
    forall i | i in indices ensures 0 <= i < |attrs| && attrs[i].name in e.data {
      AttributeIndicesFromDataSpec(e, i);
    }
    EncodeFieldsOk(attrs, e.data, indices);
    if EncodeFields(attrs, e.data, indices).Ok? {
      forall k | k in e.data ensures Encodable(attrs, e.data, indexOf[k]) {
        AttributeIndicesFromDataSpec(e, indexOf[k]);
      }
    } else {
      var i :| i in indices && !Encodable(attrs, e.data, i);
      AttributeIndicesFromDataSpec(e, i);
      var k :| k in e.data && indexOf[k] == i;
      EncodeFieldsErrorKind(attrs, e.data, indices);
    }
  }

  /** When every selected index is in the table and has a value, the only
      error left is a value that does not pack. */
  lemma {:induction false} EncodeFieldsErrorKind(attrs: seq<Attribute>, data: map<string, Value>, indices: seq<int>)
    requires forall i :: i in indices ==> 0 <= i < |attrs| && attrs[i].name in data
    ensures EncodeFields(attrs, data, indices).Err? ==> EncodeFields(attrs, data, indices).error.Unencodable?
    decreases |indices|
  {
    if indices != [] {
      var init := indices[..|indices| - 1];
      assert forall i :: i in init ==> i in indices;
      EncodeFieldsErrorKind(attrs, data, init);
    }
  }

  /** Decoding what serialize wrote yields the serialized values and nothing more. */
  lemma SerializeRoundTrip(e: Entity, mask: Option<nat>)
    requires WellFormed(e)
    requires forall i :: i in SerializeIndices(e, mask) ==> Fitting(e.cls.attributes, e.data, i)
    ensures SerializeSpec(e, mask).Ok?
    ensures DecodeFields(e.cls.attributes, SerializeIndices(e, mask), SerializeSpec(e, mask).value)
         == Ok((Restrict(e.data, Names(e.cls.attributes, SerializeIndices(e, mask))), []))
  {
    var s := EncodeFields(e.cls.attributes, e.data, SerializeIndices(e, mask));
    EncodeDecodeFields(e.cls.attributes, e.data, SerializeIndices(e, mask), []);
    assert s.value + [] == s.value;
  }

  /** The entity class OMCIData looks up for a message's entity_class; None
      when the field is unset or the class is not registered. */
  function LookupClass(classId: Option<int>): Option<EntityClass>
  {
    if classId.Some? && classId.value in EntityIdToClassMap then Some(EntityIdToClassMap[classId.value]) else None
  }

  /** What OMCIData.addfield returns or raises: s followed by the fields the
      mask selects, taken from val. */
  function AddfieldSpec(classId: Option<int>, mask: Option<nat>, s: seq<byte>, val: map<string, Value>): Result<seq<byte>, OmciError>
  {
    match LookupClass(classId)
    case None => Err(UnknownEntityClass)
    case Some(cls) =>
      if mask.None? then Err(MaskNotSet)
      else
        match EncodeFields(cls.attributes, val, AttributeIndicesFromMask(mask.value))
        case Err(e) => Err(e)
        case Ok(b) => Ok(s + b)
  }

  /** What OMCIData.getfield returns or raises: the bytes left after the
      selected fields and the dict of their values. */
  function GetfieldSpec(classId: Option<int>, mask: Option<nat>, s: seq<byte>): Result<(seq<byte>, map<string, Value>), OmciError>
  {
    match LookupClass(classId)
    case None => Err(UnknownEntityClass)
    case Some(cls) =>
      if mask.None? then Err(MaskNotSet)
      else
        match DecodeFields(cls.attributes, AttributeIndicesFromMask(mask.value), s)
        case Err(e) => Err(e)
        case Ok((data, rest)) => Ok((rest, data))
  }

  /** OMCIData.addfield(pkt, s, val), given the message's entity_class and attributes_mask. */
  method OmciDataAddfield(classId: Option<int>, mask: Option<nat>, s: seq<byte>, val: map<string, Value>)
    returns (r: Result<seq<byte>, OmciError>)
    ensures r == AddfieldSpec(classId, mask, s, val)
  {
    var entityClass := LookupClass(classId);
    if entityClass.None? {
      return Err(UnknownEntityClass);
    }
    if mask.None? {
      return Err(MaskNotSet);
    }
    var attrs := entityClass.value.attributes;
    var indices := AttributeIndicesFromMask(mask.value);
    var written := [];
    for n := 0 to |indices|
      invariant EncodeFields(attrs, val, indices[..n]) == Ok(written)
    {
      EncodeFieldsStep(attrs, val, indices, n);
      var index := indices[n];
      if !(0 <= index < |attrs|) {
        EncodeFieldsErrorStays(attrs, val, indices, n + 1);
        return Err(NoSuchAttribute(index));
      }
      var fld := attrs[index];
      if fld.name !in val {
        EncodeFieldsErrorStays(attrs, val, indices, n + 1);
        return Err(MissingValue(fld.name));
      }
      var encoded := Encode(fld.codec, val[fld.name]);
      if encoded.None? {
        EncodeFieldsErrorStays(attrs, val, indices, n + 1);
        return Err(Unencodable(fld.name));
      }
      written := written + encoded.value;
    }
    assert indices[..|indices|] == indices;
    return Ok(s + written);
  }

  /** OMCIData.getfield(pkt, s), given the message's entity_class and attributes_mask. */
  method OmciDataGetfield(classId: Option<int>, mask: Option<nat>, s: seq<byte>)
    returns (r: Result<(seq<byte>, map<string, Value>), OmciError>)
    ensures r == GetfieldSpec(classId, mask, s)
  {
    var entityClass := LookupClass(classId);
    if entityClass.None? {
      return Err(UnknownEntityClass);
    }
    if mask.None? {
      return Err(MaskNotSet);
    }
    var decoded := ReadFields(entityClass.value.attributes, AttributeIndicesFromMask(mask.value), s);
    if decoded.Err? {
      return Err(decoded.error);
    }
    return Ok((decoded.value.1, decoded.value.0));
  }

  /** getfield's loop: each selected attribute read in turn from the bytes
      left by the previous one into the dict. */
  method ReadFields(attrs: seq<Attribute>, indices: seq<int>, s: seq<byte>)
    returns (r: Result<(map<string, Value>, seq<byte>), OmciError>)
    ensures r == DecodeFields(attrs, indices, s)
  {
    var rest := s;
    var data := map[];
    for n := 0 to |indices|
      invariant DecodeFields(attrs, indices[..n], s) == Ok((data, rest))
    {
      DecodeFieldsStep(attrs, indices, s, n);
      var index := indices[n];
      if !(0 <= index < |attrs|) {
        DecodeFieldsErrorStays(attrs, indices, s, n + 1);
        return Err(NoSuchAttribute(index));
      }
      var fld := attrs[index];
      var decoded := Decode(fld.codec, rest);
      if decoded.None? {
        DecodeFieldsErrorStays(attrs, indices, s, n + 1);
        return Err(Truncated);
      }
      var (value, rest') := decoded.value;
      rest := rest';
      data := data[fld.name := value];
    }
    assert indices[..|indices|] == indices;
    return Ok((data, rest));
  }

  /** getfield consumes exactly the selected fields' widths and keys its dict
      by exactly the selected names; it fails only on an unknown class, an
      unset mask, an index beyond the table or too few bytes. */
  lemma GetfieldConsumes(classId: Option<int>, mask: nat, s: seq<byte>)
    requires LookupClass(classId).Some?
    ensures var attrs := LookupClass(classId).value.attributes;
            var indices := AttributeIndicesFromMask(mask);
            var r := GetfieldSpec(classId, Some(mask), s);
            (r.Ok? <==> InRange(attrs, indices) && |s| >= FieldsWidth(attrs, indices)) &&
            (r.Ok? ==> r.value.0 == s[FieldsWidth(attrs, indices)..] && r.value.1.Keys == Names(attrs, indices))
  {
    DecodeFieldsOk(LookupClass(classId).value.attributes, AttributeIndicesFromMask(mask), s);
  }

  /** getfield reads back what addfield wrote, followed by anything. */
  lemma AddfieldGetfieldRoundTrip(classId: Option<int>, mask: nat, val: map<string, Value>, tail: seq<byte>)
    requires LookupClass(classId).Some?
    requires forall i :: i in AttributeIndicesFromMask(mask) ==>
      Fitting(LookupClass(classId).value.attributes, val, i)
    ensures AddfieldSpec(classId, Some(mask), [], val).Ok?
    ensures GetfieldSpec(classId, Some(mask), AddfieldSpec(classId, Some(mask), [], val).value + tail)
         == Ok((tail, Restrict(val, Names(LookupClass(classId).value.attributes, AttributeIndicesFromMask(mask)))))
  {
    var attrs := LookupClass(classId).value.attributes;
    var indices := AttributeIndicesFromMask(mask);
    EncodeDecodeFields(attrs, val, indices, tail);
    assert [] + EncodeFields(attrs, val, indices).value == EncodeFields(attrs, val, indices).value;
  }

  /** One byte-wide attribute selected alone is written as its one byte and read back. */
  lemma SingleByteAttribute(attrs: seq<Attribute>, index: nat, state: byte, tail: seq<byte>)
    requires index < |attrs| && attrs[index].codec == ByteField
    ensures EncodeFields(attrs, map[attrs[index].name := Int(state)], [index]) == Ok([state])
    ensures DecodeFields(attrs, [index], [state] + tail) == Ok((map[attrs[index].name := Int(state)], tail))
  {
    var a := attrs[index];
    var val := map[a.name := Int(state)];
    assert [index][..0] == [];
    assert ToBigEndian(state, 1) == ToBigEndian(state / 256, 0) + [state % 256] == [state];
    assert Encode(ByteField, Int(state)) == Some([state]);
    assert EncodeAttribute(attrs, val, index) == Ok([state]);
    assert EncodeFields(attrs, val, [index]) == Ok([] + [state]);
    var s := [state] + tail;
    assert s[..1] == [state] && s[1..] == tail;
    assert [state][..0] == [];
    assert FromBigEndian([state]) == state;
    assert Decode(ByteField, s) == Some((Int(state), tail));
    assert DecodeAttribute(attrs, index, s) == Ok((a.name, Int(state), tail));
    assert DecodeFields(attrs, [index], s) == Ok((map[][a.name := Int(state)], tail));
  }

  /** The circuit pack class as the registry holds it: 15 attributes, the
      seventh of which is the one-byte administrative_state. */
  lemma CircuitPackClass()
    ensures LookupClass(Some(6)) == Some(CircuitPackEntity)
    ensures |CircuitPackEntity.attributes| == 15
    ensures CircuitPackEntity.attributes[6].name == "administrative_state"
    ensures CircuitPackEntity.attributes[6].codec == ByteField
  {
  }

  /** A mask selecting one byte-wide attribute of a registered class: addfield
      writes that attribute's one byte and getfield reads it back. */
  lemma SelectedAlone(classId: Option<int>, cls: EntityClass, mask: nat, index: nat, name: string, state: byte, tail: seq<byte>)
    requires LookupClass(classId) == Some(cls) && AttributeIndicesFromMask(mask) == [index]
    requires index < |cls.attributes| && cls.attributes[index].name == name && cls.attributes[index].codec == ByteField
    ensures AddfieldSpec(classId, Some(mask), [], map[name := Int(state)]) == Ok([state])
    ensures GetfieldSpec(classId, Some(mask), [state] + tail) == Ok((tail, map[name := Int(state)]))
  {
    SingleByteAttribute(cls.attributes, index, state, tail);
    assert [] + [state] == [state];
  }

  /** A mask selecting one index past a registered class's table: getfield
      raises IndexError whatever the bytes. */
  lemma SelectedBeyond(classId: Option<int>, cls: EntityClass, mask: nat, index: nat, s: seq<byte>)
    requires LookupClass(classId) == Some(cls) && AttributeIndicesFromMask(mask) == [index]
    requires index >= |cls.attributes|
    ensures GetfieldSpec(classId, Some(mask), s) == Err(NoSuchAttribute(index))
  {
    var attrs := cls.attributes;
    assert [index][..0] == [];
    assert DecodeFields(attrs, [], s) == Ok((map[], s));
    assert DecodeAttribute(attrs, index, s) == Err(NoSuchAttribute(index));
    assert DecodeFields(attrs, [index], s) == Err(NoSuchAttribute(index));
  }

  /** Getting administrative_state of a circuit pack (class 6, mask 0x400):
      addfield writes its one byte and getfield reads it back. */
  lemma AdministrativeStateRoundTrip(state: byte, tail: seq<byte>)
    ensures AddfieldSpec(Some(6), Some(0x400), [], map["administrative_state" := Int(state)]) == Ok([state])
    ensures GetfieldSpec(Some(6), Some(0x400), [state] + tail) == Ok((tail, map["administrative_state" := Int(state)]))
  {
    AdministrativeStateMask();
    CircuitPackClass();
    SelectedAlone(Some(6), CircuitPackEntity, 0x400, 6, "administrative_state", state, tail);
  }

  /** CircuitPackEntity has 15 attributes, so a mask with bit 1 or bit 0 set
      selects index 15 or 16, past the table: getfield raises IndexError
      whatever the bytes. */
  lemma MaskBeyondCircuitPack(s: seq<byte>)
    ensures GetfieldSpec(Some(6), Some(1), s) == Err(NoSuchAttribute(16))
    ensures GetfieldSpec(Some(6), Some(2), s) == Err(NoSuchAttribute(15))
  {
    Pow2Values();
    assert Pow2(0) == 1 && Pow2(1) == 2;
    SingleBitIndices(0);
    SingleBitIndices(1);
    CircuitPackClass();
    SelectedBeyond(Some(6), CircuitPackEntity, 1, 16, s);
    SelectedBeyond(Some(6), CircuitPackEntity, 2, 15, s);
  }
}
