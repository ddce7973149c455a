# OMCI message model

A Dafny model of the core of VOLTHA's OMCI (ONU Management and Control
Interface) message library, `voltha/extensions/omci/omci.py`. It covers the
following pieces:

- **Bit positions of a mask.** `bitpos_from_mask` is an imperative loop, proved
  against a specification function. The result is sorted and is a permutation
  of what the loop collects.
- **Entity classes.** Each class has an ordered attribute table and a
  name-to-index map built by `EntityClassMeta`. The model includes the
  circuit pack class (class 6) and the class registry. It also covers the two
  mask operations of `EntityClass`:
  - `attribute_indices_from_mask`, with its two byte lookup tables
  - `mask_for`, a loop
- **Entity instances.** The model covers `__init__`'s keyword check,
  `attribute_indices_from_data` and `serialize`.
- **The `OMCIData` field.** `addfield` writes the attributes a mask selects;
  `getfield` reads them back into a dict.
- **Frame dissection.**
  - The Get request and Get response layouts.
  - The `OMCIFrame` layout, with its two conditional, 36-byte, fixed-length
    message fields.
  - `FixedLenField.getfield`.
  - The patched `do_dissect` loop of `OMCIFrame`. It does not let a `None`
    overwrite a value already stored under the same name.

Python exceptions become `Err` values of `Wrappers.OmciError`, one case per
place where the source raises. Masks, class ids and message types come from
wire bytes, so they are inputs, not preconditions. The packet library's
fixed-width fields are concrete big-endian codecs with a proved round trip
(`Fields`).

The modules are:

- `Wrappers`: `Option`, `Result` and the error cases.
- `Bits`: natural-number bit theory for `&`, `>>`, `|=` and `<<`.
- `BitPos`: `bitpos_from_mask`.
- `Fields`: the byte, short, int and fixed-length string codecs.
- `Schema`: attributes, classes, the registry and the mask operations.
- `EntityCodec`: entity instances, `serialize`, and `OMCIData`'s `addfield`
  and `getfield`.
- `Frame`: field descriptors, `getfield` per kind of field, the dissection
  loop as a `Packet` class, and the three layouts.
- `FrameProperties`: what dissection does to requests, responses and frames.

A frame whose `message_type` is neither 0x49 nor 0x29 skips both conditional
message fields (voltha/extensions/omci/omci.py:272-277). `omci_trailer` then
reads bytes 4-7, the first four bytes of the 36-byte message region, and every
later byte is left over as payload (`FrameProperties.UnknownMessageType`).

## Model

| member | source | states |
|---|---|---|
| BitPos.BitposFromMask | voltha/extensions/omci/omci.py:29-47 | the loop returns `BitPositions(mask, lsb_pos, increment)`, which is sorted and a permutation (same multiset) of the positions the loop appends |
| BitPos.CollectedMembers | voltha/extensions/omci/omci.py:41-46 | a position is appended iff some set bit b of the mask has position `lsb_pos + b * increment` |
| BitPos.CollectedLength | voltha/extensions/omci/omci.py:41-46 | the loop appends exactly one position per set bit (popcount) |
| BitPos.CollectedBounds | voltha/extensions/omci/omci.py:41-46 | every appended position is at least `lsb_pos` for a positive increment, at most `lsb_pos` for a negative one, and equal to it for a zero increment |
| BitPos.CollectedOrdered | voltha/extensions/omci/omci.py:41-46 | the appended positions are strictly ascending for a positive increment and strictly descending for a negative one |
| BitPos.BitPositionsSorted | voltha/extensions/omci/omci.py:47 | the returned list is sorted, and strictly ascending when the increment is non-zero |
| BitPos.BitPositionsPermutation | voltha/extensions/omci/omci.py:47 | the returned list has the same multiset as the appended list |
| BitPos.SortedUnique | voltha/extensions/omci/omci.py:47 | two sorted lists with the same multiset are equal, so the result is exactly `sorted(out)` |
| BitPos.BitPositionsMembers | voltha/extensions/omci/omci.py:29-47 | x is in the result iff x is the position of a set bit |
| BitPos.BitPositionsLength | voltha/extensions/omci/omci.py:29-47 | the result has one entry per set bit |
| BitPos.BitPositionsOfZero | voltha/extensions/omci/omci.py:42 | a zero mask yields the empty list |
| Schema.NameToIndexMap | voltha/extensions/omci/omci.py:84-85 | the dict built from (name, index) pairs in declaration order; it has no contract of its own, and `NameToIndexMapLast` states what it holds |
| Schema.NameToIndexMapLast | voltha/extensions/omci/omci.py:84-85 | a name is a key iff some attribute has it; its index is an attribute of that name, and no later attribute has the same name (a later pair overwrites an earlier one) |
| Schema.NameToIndexMapSpec | voltha/extensions/omci/omci.py:84-85 | for a table with unique names, `map[name] == i` iff attribute i is named `name` |
| Schema.NameToIndexMapInjective | voltha/extensions/omci/omci.py:84-85 | two names with the same index are the same name |
| Schema.CircuitPackSchema | voltha/extensions/omci/omci.py:166-186 | the circuit pack is class 6 with 15 attributes whose names, wire fields and optional flags are those declared, in declaration order; mandatory operations Get, Set, Reboot; optional Create, Delete, Test |
| Schema.CircuitPackNamesUnique | voltha/extensions/omci/omci.py:168-184 | the circuit pack's 15 attribute names are pairwise distinct |
| Schema.CircuitPackIndex | voltha/extensions/omci/omci.py:84-85 | the circuit pack's name-to-index map sends each attribute's name to its position in the table |
| Schema.RegistryHoldsCircuitPack | voltha/extensions/omci/omci.py:190-198 | the registry has exactly one key, 6, and it maps to the circuit pack class |
| Schema.RegistryWellFormed | voltha/extensions/omci/omci.py:198 | every registered id maps to a class whose `class_id` is that id and whose attribute names are unique |
| Schema.AttributeIndicesFromMask | voltha/extensions/omci/omci.py:134-144 | the high-byte lookup followed by the low-byte lookup equals `bitpos_from_mask(mask & 0xffff, 16, -1)` |
| Schema.ByteTablesRange | voltha/extensions/omci/omci.py:134-137 | both tables have an entry for every byte value m; the high-byte entry lists x iff 1 <= x <= 8 and bit 8 - x of m is set, the low-byte entry iff 9 <= x <= 16 and bit 16 - x is set |
| Schema.AttributeIndexMember | voltha/extensions/omci/omci.py:138-144 | index i is selected iff 1 <= i <= 16 and bit 16 - i of the mask is set |
| Schema.AttributeIndicesFromMaskSorted | voltha/extensions/omci/omci.py:142-144 | the selected indices are strictly ascending |
| Schema.AttributeIndicesFromMaskLength | voltha/extensions/omci/omci.py:142-144 | one index per set bit among the low 16 bits |
| Schema.AttributeIndicesFromMaskIgnoresHighBits | voltha/extensions/omci/omci.py:143-144 | bits above bit 15 of the mask are ignored |
| Schema.SingleBitIndices | voltha/extensions/omci/omci.py:139-144 | the mask `1 << k` (k < 16) selects exactly index 16 - k |
| Schema.MaskFor | voltha/extensions/omci/omci.py:147-157 | the loop returns `MaskOf(cls, names)`: the mask with bit 16 - index set for each name; the first unknown name gives KeyError, an index above 16 gives ValueError (negative shift) |
| Schema.MaskOfBits | voltha/extensions/omci/omci.py:153-157 | mask_for succeeds iff every name is declared with index <= 16; then bit k is set iff some name has index 16 - k |
| Schema.MaskForOrderFree | voltha/extensions/omci/omci.py:154-156 | two name lists with the same members give the same mask, or both fail |
| Schema.MaskForMember | voltha/extensions/omci/omci.py:139-157 | `attribute_indices_from_mask(mask_for(names))` contains i iff i is the index of one of the names and lies in 1..16 |
| Schema.MaskForRoundTrip | voltha/extensions/omci/omci.py:139-157 | `attribute_indices_from_mask(mask_for(names))` is the ascending list of the names' indices in 1..16 |
| Schema.AdministrativeStateMask | voltha/extensions/omci/omci.py:147-175 | `mask_for("administrative_state")` of the circuit pack is 0x400, which selects exactly [6] |
| Schema.ManagedEntityIdDropped | voltha/extensions/omci/omci.py:139-157 | `mask_for("managed_entity_id")` is 0x10000, from which `attribute_indices_from_mask` selects nothing |
| Schema.NoMaskSelectsEntityId | voltha/extensions/omci/omci.py:139-144 | index 0 (managed_entity_id) is selected by no mask at all |
| EntityCodec.NewEntity | voltha/extensions/omci/omci.py:99-103 | construction succeeds iff every keyword is an attribute name; the entity then holds exactly those values; otherwise the failure names an offending keyword |
| EntityCodec.AttributeIndicesFromData | voltha/extensions/omci/omci.py:129-132 | the result is strictly ascending and holds exactly the indices of the supplied keys |
| EntityCodec.AttributeIndicesFromDataSpec | voltha/extensions/omci/omci.py:129-132 | the result is strictly ascending and holds exactly the indices of the supplied names, each a valid index of a supplied attribute |
| EntityCodec.Serialize | voltha/extensions/omci/omci.py:105-127 | the loop returns `SerializeSpec(e, mask)`: the selected attributes' encodings concatenated in index order, OmciUninitializedFieldError for the first selected attribute without a value, IndexError for an index beyond the table, struct.error for a value that does not pack |
| EntityCodec.SerializeWithoutMask | voltha/extensions/omci/omci.py:112-127 | without a mask, serialize succeeds iff every supplied value packs, and can fail only with struct.error, never OmciUninitializedFieldError |
| EntityCodec.EncodeFieldsErrorKind | voltha/extensions/omci/omci.py:118-125 | when every selected index is in range and has a value, the only possible failure is an unpackable value |
| EntityCodec.SerializeRoundTrip | voltha/extensions/omci/omci.py:105-127 | when every selected value fits its field, serialize succeeds and reading its bytes with the same indices gives back exactly the selected part of the data, with no bytes left |
| EntityCodec.EncodeFieldsOk | voltha/extensions/omci/omci.py:216-218 | writing the selected attributes succeeds iff each is in range, has a value and packs; the bytes written are the sum of their widths |
| EntityCodec.DecodeFieldsOk | voltha/extensions/omci/omci.py:227-232 | reading succeeds iff every index is in range and the bytes cover all widths; it then consumes exactly those widths and keys the dict by exactly the selected names |
| EntityCodec.EncodeDecodeFields | voltha/extensions/omci/omci.py:216-231 | reading back what was written (followed by anything) gives the selected values and that tail |
| EntityCodec.OmciDataAddfield | voltha/extensions/omci/omci.py:211-219 | the loop returns `AddfieldSpec`: s followed by the selected attributes' encodings taken from val, or the error of the missing class, unset mask, out-of-range index, missing key or unpackable value |
| EntityCodec.OmciDataGetfield | voltha/extensions/omci/omci.py:221-232 | returns `GetfieldSpec`: the bytes left after the selected fields and the dict of their values, or the error of the missing class, unset mask, out-of-range index or short input |
| EntityCodec.ReadFields | voltha/extensions/omci/omci.py:227-232 | the read loop returns `DecodeFields`: each selected field read in turn from the bytes left by the previous one |
| EntityCodec.GetfieldConsumes | voltha/extensions/omci/omci.py:221-232 | for a registered class, getfield succeeds iff all indices are in range and the bytes suffice; it then consumes exactly the selected widths and returns a dict keyed by the selected names |
| EntityCodec.AddfieldGetfieldRoundTrip | voltha/extensions/omci/omci.py:211-232 | for a registered class, getfield on what addfield wrote (followed by anything) gives back the selected part of val and the tail |
| EntityCodec.SelectedBeyond | voltha/extensions/omci/omci.py:226-229 | a mask selecting one index past the class's table makes getfield raise IndexError whatever the bytes |
| EntityCodec.AdministrativeStateRoundTrip | voltha/extensions/omci/omci.py:175-232 | a circuit pack's administrative_state, selected by mask 0x400, is written as one byte and read back |
| EntityCodec.MaskBeyondCircuitPack | voltha/extensions/omci/omci.py:183-229 | for the circuit pack, masks 1 and 2 select indices 16 and 15, beyond its 15 attributes, so getfield raises IndexError |
| Fields.EncodeDecode | voltha/extensions/omci/omci.py:169-183 | a value that fits a ByteField, ShortField, IntField or StrFixedLenField is encoded and decoded back, leaving what follows |
| Fields.DecodeEncode | voltha/extensions/omci/omci.py:169-183 | a decoded value fits its field and re-encodes to exactly the bytes it came from |
| Frame.GetField | voltha/extensions/omci/omci.py:20-26 | what each kind of field reads: a fixed-width leaf, OMCIData's getfield, an inner packet taking all its bytes, a conditional field (None when its condition fails), and `FixedLenField.getfield` (the inner field reads only the first `align` bytes, a payload of only padding is removed, and the bytes past the region are handed back); it has no contract of its own, and `GetFieldEndsWith`, `FixedLenReadsOnlyItsRegion` and `FixedLenDropsPadding` state its properties |
| Frame.Packet.DoDissect | voltha/extensions/omci/omci.py:287-304 | the loop leaves the fields and returns the bytes of `DoDissectFrom` under the patched store rule; the payload is unchanged |
| Frame.Packet.Dissect | voltha/extensions/omci/omci.py:287-304 | after dissection the fields are those of the patched loop, and the bytes it leaves become the payload, or its error is returned |
| Frame.NewFrame | voltha/extensions/omci/omci.py:266-304 | `OMCIFrame(s)` is a fresh frame packet whose fields and payload are those of the patched dissection of s |
| FrameProperties.PatchedDissectNeverForgets | voltha/extensions/omci/omci.py:298-300 | under the patched rule a stored non-None value is never replaced by None |
| FrameProperties.DissectKeepsNames | voltha/extensions/omci/omci.py:299-300 | dissection never removes a stored name |
| FrameProperties.DissectStopsOnlyWhenExhausted | voltha/extensions/omci/omci.py:290-293 | if dissection ends with bytes left, every remaining field was read and stored |
| FrameProperties.GetFieldEndsWith | voltha/extensions/omci/omci.py:20-26 | each field returns a suffix of the bytes it was given, including a fixed-length field, which gives back the bytes past its region |
| FrameProperties.DissectEndsWith | voltha/extensions/omci/omci.py:301 | the bytes do_dissect returns are a suffix of its input, so `raw.endswith(s)` holds |
| FrameProperties.PatchMattersOnlyForRepeatedNames | voltha/extensions/omci/omci.py:283-300 | when no remaining field reuses a stored name, the patched loop and the library loop give the same result |
| FrameProperties.FixedLenReadsOnlyItsRegion | voltha/extensions/omci/omci.py:20-26 | a fixed-length field reads only its first `align` bytes; inputs that agree there give the same value and the same remaining bytes, apart from what lies past the region |
| FrameProperties.FixedLenDropsPadding | voltha/extensions/omci/omci.py:22-26 | a fixed-length field never returns a message whose payload is all padding; when the inner message's payload is all padding, the result is that message with only its payload removed, followed by the bytes past the region; a message whose payload is not all padding is kept unchanged |
| FrameProperties.FrameLayoutShaped | voltha/extensions/omci/omci.py:266-281 | the frame layout is transaction_id (short, default 0), message_type (byte, default None), omci (byte, default 0x0a), the Get request and Get response each as a 36-byte fixed-length packet field named omci_message conditioned on message_type 0x49 and 0x29, and omci_trailer (int, default 0x28) |
| FrameProperties.GetResponseLayoutShaped | voltha/extensions/omci/omci.py:251-263 | the Get response layout is entity_class, entity_id (default 0), success_code (byte, default 0), attributes_mask, then OMCIData `data` read only when success_code is 0 |
| FrameProperties.GetRequestDissected | voltha/extensions/omci/omci.py:241-248 | a Get request body reads entity_class, entity_id and attributes_mask as big-endian shorts, and the rest becomes its payload |
| FrameProperties.GetRequestFrameKeepsMessage | voltha/extensions/omci/omci.py:266-300 | a frame with message_type 0x49 keeps the Get request message (padding dropped) and its trailer under the patched rule |
| FrameProperties.LibraryRuleLosesGetRequest | voltha/extensions/omci/omci.py:283-286 | under the unpatched library rule, the same frame ends with `omci_message` set to None by the skipped Get response branch |
| FrameProperties.GetResponseFrame | voltha/extensions/omci/omci.py:266-304 | a frame with message_type 0x29 holds the Get response dissected from its 36-byte region (padding dropped) and its trailer, or fails with the response's error |
| FrameProperties.UnknownMessageType | voltha/extensions/omci/omci.py:268-281 | a frame with any other message_type stores None as the message and reads the trailer from bytes 4-7 |
| FrameProperties.GetResponseData | voltha/extensions/omci/omci.py:251-263 | a Get response reads its 7-byte header; with no byte after it, data is never read; with success_code 0 the data is OMCIData's getfield result for the header's class and mask (its error fails the message); otherwise data is None and every later byte is payload |
| FrameProperties.ExampleGetRequestDissected | voltha/extensions/omci/omci.py:266-281 | the 44-byte Get request frame for class 6, mask 0x400 dissects into its header, message and trailer with nothing left over |
| FrameProperties.ExampleGetResponseDissected | voltha/extensions/omci/omci.py:251-281 | the Get response frame answering it with administrative_state 1 dissects into a message whose data is `{administrative_state: 1}` |

## Left out

- Packet library internals: `Packet`, `PacketField`, `ConditionalField` and `PadField` are modelled only as far as `getfield` and the dissection loop go. Layering and `Raw` payload objects are modelled as left-over bytes.
- Encode-side padding of `FixedLenField` (inherited `PadField.addfield`): the library code is not part of this model, so no frame is encoded.
- Whole-message and whole-frame encoding (`Packet.build`) is library code and is not modelled. Only `OMCIData.addfield` and `serialize` are encoders here.
- The `raw_packet_cache`, `raw_packet_cache_fields` and `do_copy` bookkeeping and `explicit = 1` in `do_dissect` are caching inside the packet library. They do not affect the fields or the bytes returned.
- Reflective registry construction with `inspect.getmembers`: the registry is the constant map from class 6 to the circuit pack class, which is the only entity class the module defines.
- `AttributeAccess` and `EntityOperations` enum aliasing: the access flags, the optional flag and the operation sets are kept as data. Nothing in the code reads them.
- `serialize`'s `operation` argument is never read, so it is not a parameter.
- Negative masks: masks are natural numbers, because they come from unsigned wire fields.
- Unregistered class or unset mask. For an unregistered class, `entity_id_to_class_map.get` gives None and the code then fails with AttributeError on None (omci.py:214-215, 225-226). For an unset mask, `None >> 8` raises TypeError (omci.py:143). The model returns `UnknownEntityClass` or `MaskNotSet` in place of these exceptions.
- Fields.EncodeDecode: the packet library's `StrFixedLenField` decodes a short input to a short string, whereas every codec here returns `Truncated` on too few bytes. That library code is not part of this model. The difference carries over to `EntityCodec.DecodeFieldsOk`, `EntityCodec.GetfieldConsumes`, `OMCIData.getfield` and Get response dissection. For example, take a circuit pack Get response whose mask selects version (14 bytes) and equipment_id (20 bytes). The two fields need 34 bytes, but only 29 follow the header in the 36-byte region. The source returns a 15-byte equipment_id; the model fails the whole frame with `Truncated`.
