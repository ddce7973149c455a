/** Entity classes of the OMCI model: the ordered attribute table of each
    class, the name-to-index map derived from it, the class registry, and the
    two mask operations of EntityClass (attribute_indices_from_mask and
    mask_for). Attribute index i is bit 16 - i of a mask. */
module Schema {
  import opened Wrappers
  import opened Bits
  import opened BitPos
  import opened Fields

  datatype Access = Readable | Writable | SetByCreate

  datatype Operation = Get | Set | Create | Delete | Reboot | Test

  /** EntityClassAttribute: a named wire field, its access rights and whether
      the attribute is optional. */
  datatype Attribute = Attribute(name: string, codec: Codec, access: set<Access>, optional: bool)

  datatype EntityClass = EntityClass(
    classId: nat,
    attributes: seq<Attribute>,
    mandatoryOperations: set<Operation>,
    optionalOperations: set<Operation>)

  /** attribute_name_to_index_map as EntityClassMeta builds it: a dict of
      (name, index) pairs in declaration order, so a repeated name keeps the
      index of its last declaration. */
  function NameToIndexMap(attrs: seq<Attribute>): map<string, nat>
    decreases |attrs|
  {
    if attrs == [] then map[]
    else NameToIndexMap(attrs[..|attrs| - 1])[attrs[|attrs| - 1].name := |attrs| - 1]
  }

  predicate UniqueNames(attrs: seq<Attribute>)
  {
    forall i, j :: 0 <= i < j < |attrs| ==> attrs[i].name != attrs[j].name
  }

  /** The map holds every declared name, at the last index that declares it. */
  lemma {:induction false} NameToIndexMapLast(attrs: seq<Attribute>, name: string)
    ensures name in NameToIndexMap(attrs) <==> exists i :: 0 <= i < |attrs| && attrs[i].name == name
    ensures name in NameToIndexMap(attrs) ==>
      var k := NameToIndexMap(attrs)[name];
      k < |attrs| && attrs[k].name == name &&
      forall j :: k < j < |attrs| ==> attrs[j].name != name
    decreases |attrs|
  {
    if attrs != [] {
      var n := |attrs| - 1;
      var init := attrs[..n];
      NameToIndexMapLast(init, name);
      if name != attrs[n].name {
        if exists i :: 0 <= i < |attrs| && attrs[i].name == name {
          var i :| 0 <= i < |attrs| && attrs[i].name == name;
          assert init[i].name == name;
        }
        if name in NameToIndexMap(init) {
          var k := NameToIndexMap(init)[name];
          assert attrs[k] == init[k];
        }
      }
    }
  }

  /** With unique names, name maps to i exactly when attributes[i] has that name. */
  lemma NameToIndexMapSpec(attrs: seq<Attribute>, name: string, i: int)
    requires UniqueNames(attrs)
    ensures (name in NameToIndexMap(attrs) && NameToIndexMap(attrs)[name] == i)
        <==> (0 <= i < |attrs| && attrs[i].name == name)
  {
    NameToIndexMapLast(attrs, name);
  }

  /** Distinct names of a class have distinct indices. */
  lemma NameToIndexMapInjective(attrs: seq<Attribute>, n1: string, n2: string)
    requires n1 in NameToIndexMap(attrs) && n2 in NameToIndexMap(attrs)
    requires NameToIndexMap(attrs)[n1] == NameToIndexMap(attrs)[n2]
    ensures n1 == n2
  {
    NameToIndexMapLast(attrs, n1);
    NameToIndexMapLast(attrs, n2);
  }

  /** CircuitPackEntity, class 6 (voltha/extensions/omci/omci.py:166-186). */
  const CircuitPackEntity := EntityClass(
    6,
    [ Attribute("managed_entity_id", StrFixedLenField(22), {Readable, SetByCreate}, false),
      Attribute("type", ByteField, {Readable, SetByCreate}, false),
      Attribute("number_of_ports", ByteField, {Readable}, true),
      Attribute("serial_number", StrFixedLenField(8), {Readable}, false),
      Attribute("version", StrFixedLenField(14), {Readable}, false),
      Attribute("vendor_id", StrFixedLenField(4), {Readable}, false),
      Attribute("administrative_state", ByteField, {Readable, Writable, SetByCreate}, false),
      Attribute("operational_state", ByteField, {Readable}, true),
      Attribute("bridged_or_ip_ind", ByteField, {Readable, Writable}, true),
      Attribute("equipment_id", StrFixedLenField(20), {Readable}, true),
      Attribute("card_configuration", ByteField, {Readable, Writable, SetByCreate}, false),
      Attribute("total_tcont_buffer_number", ByteField, {Readable}, false),
      Attribute("total_priority_queue_number", ByteField, {Readable}, false),
      Attribute("total_traffic_scheduler_number", ByteField, {Readable}, false),
      Attribute("power_sched_override", IntField, {Readable, Writable}, true) ],
    {Get, Set, Reboot},
    {Create, Delete, Test})

  const CircuitPackNames: seq<string> := [
    "managed_entity_id", "type", "number_of_ports", "serial_number", "version", "vendor_id",
    "administrative_state", "operational_state", "bridged_or_ip_ind", "equipment_id",
    "card_configuration", "total_tcont_buffer_number", "total_priority_queue_number",
    "total_traffic_scheduler_number", "power_sched_override"]

  const CircuitPackCodecs: seq<Codec> := [
    StrFixedLenField(22), ByteField, ByteField, StrFixedLenField(8), StrFixedLenField(14), StrFixedLenField(4),
    ByteField, ByteField, ByteField, StrFixedLenField(20), ByteField, ByteField, ByteField, ByteField, IntField]

  /** entity_id_to_class_map: class_id to entity class. */
  const EntityIdToClassMap: map<int, EntityClass> := map[CircuitPackEntity.classId := CircuitPackEntity]

  lemma CircuitPackNamesUnique()
    ensures UniqueNames(CircuitPackEntity.attributes)
  {
    var a := CircuitPackEntity.attributes;
    forall i, j | 0 <= i < j < |a| ensures a[i].name != a[j].name {
      assert |a[i].name| != |a[j].name| || a[i].name[0] != a[j].name[0];
    }
  }

  /** Every registered class is filed under its own class_id and has unique names. */
  lemma RegistryWellFormed(id: int)
    requires id in EntityIdToClassMap
    ensures EntityIdToClassMap[id].classId == id
    ensures UniqueNames(EntityIdToClassMap[id].attributes)
  {
    CircuitPackNamesUnique();
  }

  /** The circuit pack's declared schema: class 6, its 15 attributes with
      their names, wire fields and optional flags in declaration order, and
      its operations. */
  lemma CircuitPackSchema()
    ensures CircuitPackEntity.classId == 6 && |CircuitPackEntity.attributes| == 15
    ensures forall i :: 0 <= i < 15 ==> CircuitPackEntity.attributes[i].name == CircuitPackNames[i]
    ensures forall i :: 0 <= i < 15 ==> CircuitPackEntity.attributes[i].codec == CircuitPackCodecs[i]
    ensures forall i :: 0 <= i < 15 ==> (CircuitPackEntity.attributes[i].optional <==> i in {2, 7, 8, 9, 14})
    ensures CircuitPackEntity.mandatoryOperations == {Get, Set, Reboot}
    ensures CircuitPackEntity.optionalOperations == {Create, Delete, Test}
  {
  }

  /** The registry holds exactly the circuit pack class, under class id 6. */
  lemma RegistryHoldsCircuitPack()
    ensures EntityIdToClassMap.Keys == {6}
    ensures EntityIdToClassMap[6] == CircuitPackEntity
  {
  }

  /** byte1_mask_to_attr_indices: the high byte of a mask, bit b standing for index 8 - b. */
  const Byte1MaskToAttrIndices: map<nat, seq<int>> := map m: nat | m < 256 :: BitPositions(m, 8, -1)

  /** byte2_mask_to_attr_indices: the low byte of a mask, bit b standing for index 16 - b. */
  const Byte2MaskToAttrIndices: map<nat, seq<int>> := map m: nat | m < 256 :: BitPositions(m, 16, -1)

  /** attribute_indices_from_mask: the table entries for the high and the low
      byte, concatenated. It is bitpos_from_mask of the low 16 bits with base
      16 and increment -1. */
  function AttributeIndicesFromMask(mask: nat): (r: seq<int>)
    ensures r == BitPositions(mask % 0x1_0000, 16, -1)
  {
    SplitShort(mask);
    CollectedSplit(mask % 0x1_0000, mask % 256, (mask / 256) % 256, 8, 16, -1, 8);
    ReverseConcat(Collected(mask % 256, 16, -1), Collected((mask / 256) % 256, 8, -1));
    Byte1MaskToAttrIndices[(mask / 256) % 256] + Byte2MaskToAttrIndices[mask % 256]
  }

  lemma SplitShort(mask: nat)
    ensures Pow2(8) == 256
    ensures mask % 0x1_0000 == mask % 256 + Pow2(8) * ((mask / 256) % 256)
  {
    var q, lo := mask / 256, mask % 256;
    var a, h := q / 256, q % 256;
    assert mask == (a * 256 + h) * 256 + lo;
    assert mask == a * 0x1_0000 + (h * 256 + lo);
    DivModUnique(mask, 0x1_0000, a, h * 256 + lo);
  }

  /** The bits of m = lo + 2^k * hi are those of lo followed by those of hi,
      whose positions start k steps after lsb. */
  lemma {:induction false} CollectedSplit(m: nat, lo: nat, hi: nat, k: nat, lsb: int, inc: int, hiLsb: int)
    requires lo < Pow2(k) && m == lo + Pow2(k) * hi && hiLsb == lsb + k * inc
    ensures Collected(m, lsb, inc) == Collected(lo, lsb, inc) + Collected(hi, hiLsb, inc)
  {
    if k == 0 {
      assert lo == 0 && m == hi && Collected(lo, lsb, inc) == [];
    } else {
      SplitStep(m, lo, hi, k, lsb, inc, hiLsb);
      if m != 0 {
        CollectedSplit(m / 2, lo / 2, hi, k - 1, lsb + inc, inc, hiLsb);
        CollectedStep(m, lo, Collected(hi, hiLsb, inc), lsb, inc);
      }
    }
  }

  /** One bit more in front of both sides of a split. */
  lemma CollectedStep(m: nat, lo: nat, tail: seq<int>, lsb: int, inc: int)
    requires m != 0 && m % 2 == lo % 2
    requires Collected(m / 2, lsb + inc, inc) == Collected(lo / 2, lsb + inc, inc) + tail
    ensures Collected(m, lsb, inc) == Collected(lo, lsb, inc) + tail
  {
    var bit := if lo % 2 == 1 then [lsb] else [];
    var a := Collected(lo / 2, lsb + inc, inc);
    if lo == 0 {
      assert a == [] && bit == [];
    } else {
      assert Collected(lo, lsb, inc) == bit + a;
    }
    assert bit + (a + tail) == (bit + a) + tail;
  }

  /** The arithmetic of one step of CollectedSplit: halving lo + 2^k * hi. */
  lemma SplitStep(m: nat, lo: nat, hi: nat, k: nat, lsb: int, inc: int, hiLsb: int)
    requires 0 < k && lo < Pow2(k) && m == lo + Pow2(k) * hi && hiLsb == lsb + k * inc
    ensures m % 2 == lo % 2 && m / 2 == lo / 2 + Pow2(k - 1) * hi && lo / 2 < Pow2(k - 1)
    ensures m == 0 <==> lo == 0 && hi == 0
    ensures hiLsb == lsb + inc + (k - 1) * inc
  {
    var p := Pow2(k - 1);
    var q := p * hi;
    assert m == lo + 2 * q;
    DivModUnique(m, 2, lo / 2 + q, lo % 2);
    MulAtLeast(hi, p);
  }

  /** Both tables have an entry for every byte value. In the high-byte table
      the entry for m lists x exactly when 1 <= x <= 8 and bit 8 - x of m is
      set; in the low-byte table exactly when 9 <= x <= 16 and bit 16 - x is
      set. So their concatenation is ascending. */
  lemma ByteTablesRange(m: nat, x: int)
    requires m < 256
    ensures m in Byte1MaskToAttrIndices && m in Byte2MaskToAttrIndices
    ensures x in Byte1MaskToAttrIndices[m] <==> 1 <= x <= 8 && Bit(m, 8 - x)
    ensures x in Byte2MaskToAttrIndices[m] <==> 9 <= x <= 16 && Bit(m, 16 - x)
  {
    assert Byte1MaskToAttrIndices[m] == BitPositions(m, 8, -1);
    assert Byte2MaskToAttrIndices[m] == BitPositions(m, 16, -1);
    BitPositionsInByte(m, 8, x);
    BitPositionsInByte(m, 16, x);
    BitPositionsMembers(m, 8, -1, x);
    BitPositionsMembers(m, 16, -1, x);
    if 1 <= x <= 8 && Bit(m, 8 - x) {
      var b: nat := 8 - x;
      assert Bit(m, b) && x == 8 + b * -1;
    }
    if 9 <= x <= 16 && Bit(m, 16 - x) {
      var b: nat := 16 - x;
      assert Bit(m, b) && x == 16 + b * -1;
    }
  }

  /** The entries for a byte's bits lie in the 8 numbers up to lsb. */
  lemma BitPositionsInByte(m: nat, lsb: int, x: int)
    requires m < 256
    ensures x in BitPositions(m, lsb, -1) ==> lsb - 7 <= x <= lsb
  {
    BitPositionsMembers(m, lsb, -1, x);
    if x in BitPositions(m, lsb, -1) {
      var b: nat :| Bit(m, b) && x == lsb + b * -1;
      SplitShort(m);
      BitOfLowBits(m, 8, b);
    }
  }

  lemma Pow2Values()
    ensures Pow2(8) == 256 && Pow2(10) == 0x400 && Pow2(16) == 0x1_0000
  {
  }

  /** Index i is selected by the mask exactly when it lies in 1..16 and bit
      16 - i is set. */
  lemma AttributeIndexMember(mask: nat, i: int)
    ensures i in AttributeIndicesFromMask(mask) <==> 1 <= i <= 16 && Bit(mask, 16 - i)
  {
    var low := mask % 0x1_0000;
    Pow2Values();
    BitPositionsMembers(low, 16, -1, i);
    if 1 <= i <= 16 {
      var b: nat := 16 - i;
      BitOfLowBits(mask, 16, b);
      assert i == 16 + b * -1;
    }
    if i in AttributeIndicesFromMask(mask) {
      var b: nat :| Bit(low, b) && i == 16 + b * -1;
      BitOfLowBits(mask, 16, b);
    }
  }

  /** attribute_indices_from_mask lists its indices in ascending order, once each. */
  lemma AttributeIndicesFromMaskSorted(mask: nat)
    ensures StrictlySorted(AttributeIndicesFromMask(mask))
  {
    BitPositionsSorted(mask % 0x1_0000, 16, -1);
  }

  /** One index per set bit of the low 16 bits. */
  lemma AttributeIndicesFromMaskLength(mask: nat)
    ensures |AttributeIndicesFromMask(mask)| == Popcount(mask % 0x1_0000)
  {
    BitPositionsLength(mask % 0x1_0000, 16, -1);
  }

  /** Bits above bit 15 are ignored. */
  lemma AttributeIndicesFromMaskIgnoresHighBits(mask: nat)
    ensures AttributeIndicesFromMask(mask) == AttributeIndicesFromMask(mask % 0x1_0000)
  {
    var low := mask % 0x1_0000;
    assert low % 0x1_0000 == low;
  }

  /** The loop of mask_for, as a function of the names seen so far: the first
      name that is no attribute raises KeyError, an index above 16 makes the
      shift count negative (ValueError). */
  function MaskOf(cls: EntityClass, names: seq<string>): Result<nat, OmciError>
    decreases |names|
  {
    if names == [] then Ok(0)
    else
      match MaskOf(cls, names[..|names| - 1])
      case Err(e) => Err(e)
      case Ok(m) =>
        var name := names[|names| - 1];
        var indexOf := NameToIndexMap(cls.attributes);
        if name !in indexOf then Err(UnknownAttributeName(name))
        else if indexOf[name] > 16 then Err(NegativeShiftCount(indexOf[name]))
        else Ok(SetBit(m, 16 - indexOf[name]))
  }

  /** mask_for: mask |= 1 << (16 - index) for every name. */
  method MaskFor(cls: EntityClass, names: seq<string>) returns (r: Result<nat, OmciError>)
    ensures r == MaskOf(cls, names)
  {
    var indexOf := NameToIndexMap(cls.attributes);
    var mask := 0;
    var i := 0;
    while i < |names|
      invariant 0 <= i <= |names|
      invariant MaskOf(cls, names[..i]) == Ok(mask)
    {
      var name := names[i];
      assert names[..i + 1][..i] == names[..i];
      if name !in indexOf {
        MaskOfErrorStays(cls, names, i + 1);
        return Err(UnknownAttributeName(name));
      }
      var index := indexOf[name];
      if index > 16 {
        MaskOfErrorStays(cls, names, i + 1);
        return Err(NegativeShiftCount(index));
      }
      mask := SetBit(mask, 16 - index);
      i := i + 1;
    }
    assert names[..i] == names;
    r := Ok(mask);
  }

  /** Once a name fails, the rest of the names do not matter. */
  lemma {:induction false} MaskOfErrorStays(cls: EntityClass, names: seq<string>, n: nat)
    requires n <= |names| && MaskOf(cls, names[..n]).Err?
    ensures MaskOf(cls, names) == MaskOf(cls, names[..n])
    decreases |names| - n
  {
    if n < |names| {
      assert names[..n + 1][..n] == names[..n];
      MaskOfErrorStays(cls, names, n + 1);
    } else {
      assert names[..n] == names;
    }
  }

  /** A name is usable by mask_for: declared, with an index that fits the shift. */
  predicate MaskableName(cls: EntityClass, name: string)
  {
    name in NameToIndexMap(cls.attributes) && NameToIndexMap(cls.attributes)[name] <= 16
  }

  /** mask_for succeeds exactly when every name is usable, and then bit k is
      set exactly when some name has index 16 - k. */
  lemma {:induction false} MaskOfBits(cls: EntityClass, names: seq<string>)
    ensures MaskOf(cls, names).Ok? <==> forall n :: n in names ==> MaskableName(cls, n)
    ensures MaskOf(cls, names).Ok? ==> forall k: nat ::
      Bit(MaskOf(cls, names).value, k) <==>
      exists n :: n in names && NameToIndexMap(cls.attributes)[n] == 16 - k
    decreases |names|
  {
    if names == [] {
      forall k: nat ensures !Bit(0, k) { ZeroHasNoBits(k); }
    } else {
      var init, name := names[..|names| - 1], names[|names| - 1];
      var indexOf := NameToIndexMap(cls.attributes);
      MaskOfBits(cls, init);
      assert names == init + [name];
      assert forall n :: n in names <==> n in init || n == name;
      assert MaskOf(cls, names).Ok? <==> MaskOf(cls, init).Ok? && MaskableName(cls, name);
      if MaskOf(cls, names).Ok? {
        var m := MaskOf(cls, init).value;
        forall k: nat ensures Bit(MaskOf(cls, names).value, k) <==>
          exists n :: n in names && indexOf[n] == 16 - k
        {
          BitOfSetBit(m, 16 - indexOf[name], k);
          if exists n :: n in names && indexOf[n] == 16 - k {
            var n :| n in names && indexOf[n] == 16 - k;
            if n != name {
              assert n in init;
            }
          }
        }
      }
    }
  }

  /** mask_for depends only on the set of names: order and repetition do not matter. */
  lemma MaskForOrderFree(cls: EntityClass, names1: seq<string>, names2: seq<string>)
    requires forall n :: n in names1 <==> n in names2
    ensures MaskOf(cls, names1) == MaskOf(cls, names2) || (MaskOf(cls, names1).Err? && MaskOf(cls, names2).Err?)
  {
    MaskOfBits(cls, names1);
    MaskOfBits(cls, names2);
    if MaskOf(cls, names1).Ok? {
      var m1, m2 := MaskOf(cls, names1).value, MaskOf(cls, names2).value;
      forall k: nat ensures Bit(m1, k) == Bit(m2, k) {
      }
      BitsDetermine(m1, m2);
    }
  }

  /** The indices mask_for selects that the 16-bit mask can carry: index 0
      (bit 16) is not among them. */
  function SelectedIndices(cls: EntityClass, names: seq<string>): set<int>
  {
    set n | n in names && n in NameToIndexMap(cls.attributes) && NameToIndexMap(cls.attributes)[n] >= 1
      :: NameToIndexMap(cls.attributes)[n] as int
  }

  /** An index is listed for the mask of S exactly when it is a selected index. */
  lemma MaskForMember(cls: EntityClass, names: seq<string>, i: int)
    requires MaskOf(cls, names).Ok?
    ensures i in AttributeIndicesFromMask(MaskOf(cls, names).value) <==> i in SelectedIndices(cls, names)
  {
    var m := MaskOf(cls, names).value;
    var indexOf := NameToIndexMap(cls.attributes);
    MaskOfBits(cls, names);
    AttributeIndexMember(m, i);
    if 1 <= i <= 16 {
      var k: nat := 16 - i;
      if Bit(m, k) {
        var n :| n in names && indexOf[n] == 16 - k;
        assert i in SelectedIndices(cls, names);
      }
      if i in SelectedIndices(cls, names) {
        var n :| n in names && n in indexOf && indexOf[n] >= 1 && indexOf[n] as int == i;
        assert indexOf[n] == 16 - k;
      }
    }
  }

  /** attribute_indices_from_mask(mask_for(S)) is the sorted index list of S,
      leaving out index 0, whose bit 16 lies outside the mask. */
  lemma MaskForRoundTrip(cls: EntityClass, names: seq<string>)
    requires MaskOf(cls, names).Ok?
    ensures AttributeIndicesFromMask(MaskOf(cls, names).value) == AscendingMembers(SelectedIndices(cls, names), 1, 17)
  {
    var m := MaskOf(cls, names).value;
    var selected := SelectedIndices(cls, names);
    var want := AscendingMembers(selected, 1, 17);
    AttributeIndicesFromMaskSorted(m);
    AscendingMembersSpec(selected, 1, 17);
    forall i ensures i in AttributeIndicesFromMask(m) <==> i in want {
      MaskForMember(cls, names, i);
      AttributeIndexMember(m, i);
    }
    StrictlySortedUnique(AttributeIndicesFromMask(m), want);
  }

  /** In CircuitPackEntity each name maps to its position in the table. */
  lemma CircuitPackIndex(name: string, i: int)
    requires 0 <= i < |CircuitPackEntity.attributes| && CircuitPackEntity.attributes[i].name == name
    ensures name in NameToIndexMap(CircuitPackEntity.attributes)
    ensures NameToIndexMap(CircuitPackEntity.attributes)[name] == i
  {
    CircuitPackNamesUnique();
    NameToIndexMapSpec(CircuitPackEntity.attributes, name, i);
  }

  /** CircuitPackEntity.mask_for("administrative_state") == 1 << 10 == 0x400:
      index 6 selects bit 10, and the mask selects index 6 alone. */
  lemma AdministrativeStateMask()
    ensures MaskOf(CircuitPackEntity, ["administrative_state"]) == Ok(0x400)
    ensures AttributeIndicesFromMask(0x400) == [6]
  {
    CircuitPackIndex("administrative_state", 6);
    assert ["administrative_state"][..0] == [];
    SetBitOfZero(10);
    Pow2Values();
    forall i ensures i in AttributeIndicesFromMask(0x400) <==> i in [6] {
      AttributeIndexMember(0x400, i);
      if 1 <= i <= 16 {
        BitOfPow2(10, 16 - i);
      }
    }
    AttributeIndicesFromMaskSorted(0x400);
    StrictlySortedUnique(AttributeIndicesFromMask(0x400), [6]);
  }

  /** managed_entity_id (index 0) sets bit 16, which attribute_indices_from_mask drops. */
  lemma ManagedEntityIdDropped()
    ensures MaskOf(CircuitPackEntity, ["managed_entity_id"]) == Ok(0x1_0000)
    ensures AttributeIndicesFromMask(0x1_0000) == []
  {
    CircuitPackIndex("managed_entity_id", 0);
    assert ["managed_entity_id"][..0] == [];
    SetBitOfZero(16);
    Pow2Values();
    AttributeIndicesFromMaskLength(0x1_0000);
    assert 0x1_0000 % 0x1_0000 == 0;
  }

  /** No mask selects index 0, the entity id: a mask reaches indices 1..16 only. */
  lemma NoMaskSelectsEntityId(mask: nat)
    ensures 0 !in AttributeIndicesFromMask(mask)
  {
    AttributeIndexMember(mask, 0);
  }

  /** A mask with the single bit k (below 16) selects index 16 - k alone. */
  lemma SingleBitIndices(k: nat)
    requires k < 16
    ensures AttributeIndicesFromMask(Pow2(k)) == [16 - k]
  {
    forall i ensures i in AttributeIndicesFromMask(Pow2(k)) <==> i in [16 - k] {
      AttributeIndexMember(Pow2(k), i);
      if 1 <= i <= 16 {
        BitOfPow2(k, 16 - i);
      }
    }
    AttributeIndicesFromMaskSorted(Pow2(k));
    StrictlySortedUnique(AttributeIndicesFromMask(Pow2(k)), [16 - k]);
  }
}
