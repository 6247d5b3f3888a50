# A verified model of the my_asn1 schema codec

`src/python/ct/crypto/my_asn1/types.py` is a small ASN.1 library. A type is
declared as a Python class: a tag tuple plus a kind (Boolean, Integer, the
string types, BitString, Any, Choice, SequenceOf, SetOf, Sequence). The library
encodes values of those types in DER and decodes them from DER or, leniently,
from some BER. It follows ITU-T X.690.

This project models that codec in Dafny:

- **Schemas and values.** A class's tag tuple and kind become the datatype
  `Schemas.Schema`, and an instance's value becomes `Schemas.Value`.
- **Schema construction.** `Universal`, `Explicit` and `Implicit` are functions
  from schema to schema. MetaChoice, MetaSequence and `Component.__init__` are
  the builders of `Builders`.
- **Encoding and decoding.** `encode`, `read`, `decode` and every
  `_encode_value`/`_decode_value` form one family of functions over the schema
  (`Codec`).
- **The loops.** The source's loops are methods proved to compute those
  functions: `encode_int`, `decode_int`, the bit packing of BitString, the tag
  loops of `encode`/`read`, the SequenceOf/SetOf decoders and both passes of
  `Sequence._decode_value` (`Integers`, `Scalars`, `CodecLoops`).
- **The mutable containers.** Choice, the Repeated kinds and Any change their
  contents in place. They are small classes whose methods state the new state
  (`Containers`).

Errors are values of `Errors.Error`:

- `TagMismatch` is `ASN1TagError`.
- `Malformed` is any other `ASN1Error`.
- `SchemaError` is a `TypeError` or `AttributeError`: a type used in a way it
  does not support. Building an Any from an Any (`Containers.AnyValue.FromValue`)
  and giving keys to a Sequence without components (`Containers.ConvertSequence`,
  where the source has no `key_map`) are reported this way. So is the `KeyError`
  of a `defined_by` that names no component, and the `AttributeError` of a
  defined-by component that holds something other than an Any
  (`Codec.ResolveDefinedBy`): both come from a misdeclared type. The source
  raises the same `AttributeError` for an optional defined-by Any that is
  absent from the input; that one is a bug, listed under "## Findings", and the
  model leaves such a component absent.
- `InvalidArgument` is a `ValueError`, or a `KeyError` or `IndexError` for a
  key or index the caller gave.

`ASN1TagError` is an `ASN1Error`, as `Errors.IsAsn1Error` states.

What is proved, besides each operation's own contract:

- **Round trip.** A value that conforms to a well-formed schema decodes from its
  encoding in both modes (`RoundTrip.DecodeRoundTrip`). The decoded value is
  equal in the sense the source compares values: by `value`, which for an Any is
  its undecoded bytes. Conforming values of a well-formed schema that differ
  therefore have distinct encodings (`RoundTrip.EncodingDeterminesValue`).
  Conforming includes a SetOf's elements being in the order of their
  encodings already. A SetOf whose elements are not decodes to the same
  elements in that order (`Properties.SetOfDecodesSorted`), which the source
  compares as a different value, since its SetOf equality depends on order.
- **Primitives.** Integers, lengths, Booleans and bit strings round-trip on
  their own.
- **Framing.** The tag framing reads back what it writes, and decoding refuses
  leftover bytes.
- **SetOf.** The encoding does not depend on the order of the elements.
- **Sequence decoding.** The defined-by pass only ever adds decoded parts. In
  lenient mode it swallows decoding errors. In strict mode a success means
  every resolvable Any that is present was decoded. An absent optional
  component at the end of a Sequence, untagged Any included, is read as absent
  (`Properties.AbsentTrailingAny`).
- **Choice and Sequence declarations.** The tag map MetaChoice builds agrees
  with the decoder's dispatch, and the key map MetaSequence builds agrees with
  the lookup by name.
- **Kept quirks.** Behaviour the source has on purpose or by omission is proved
  as it stands. `read_length` accepts a non-minimal long form
  (`Integers.NonMinimalLengthAccepted`). `read` takes the contents from the
  innermost length and checks outer lengths only for being large enough
  (`Framing.OuterLengthNotMatched`).

Three places where the source does not do what it evidently means to are under
"## Findings". Each is modelled as written, with an input that exposes it, and
the rest of the model uses the corrected definition.

Tags are single identifier octets (X.690 section 8.1.2, low-tag-number form):
class, constructed bit and a number below 31. `tag.py`, which defines `Tag`,
`Tag.read` and `Tag.value`, is not part of this model. Its behaviour is
abstracted as an injective octet encoding (`Tags.TagOctetInjective`).

## Model

| member | source | states |
|---|---|---|
| Integers.IntOctets | src/python/ct/crypto/my_asn1/types.py:32-68 | encoding succeeds exactly when signed or the value is non-negative, fails with ValueError otherwise, and never gives an empty string |
| Integers.EncodeInt | src/python/ct/crypto/my_asn1/types.py:43-68 | the byte-appending, shifting loop computes IntOctets, and decode_int reads the result back to the value |
| Integers.DigitsValue | src/python/ct/crypto/my_asn1/types.py:51-65 | the octets the loop collects have the value's magnitude, and carry no redundant leading 0x00 (positive) or 0xFF (negative) octet |
| Integers.ZeroAndMinusOne | src/python/ct/crypto/my_asn1/types.py:43-49 | 0 encodes as 00, -1 as FF when signed, and -1 is refused when unsigned |
| Integers.OctetsToInt | src/python/ct/crypto/my_asn1/types.py:85-108 | decoding succeeds exactly on non-empty, minimally encoded input (no 00 before a byte below 0x80, no FF before a byte of 0x80 or more when signed), and is non-negative when unsigned |
| Integers.DecodeInt | src/python/ct/crypto/my_asn1/types.py:85-108 | the accumulating loop computes OctetsToInt, succeeding exactly on minimal input |
| Integers.IntRoundTrip | src/python/ct/crypto/my_asn1/types.py:32-108 | decode_int(encode_int(v, signed), signed) == v for every encodable v, and encode_int's output is always minimal |
| Integers.EncodeLength | src/python/ct/crypto/my_asn1/types.py:120-132 | lengths up to 127 are one octet; longer ones are 0x80 + k followed by the k-octet minimal unsigned encoding |
| Integers.ReadLength | src/python/ct/crypto/my_asn1/types.py:135-156 | an empty buffer, the octet 0x80 and a count longer than the buffer are errors; on success the rest is shorter than the input |
| Integers.LengthRoundTrip | src/python/ct/crypto/my_asn1/types.py:120-156 | read_length(encode_length(n) + rest) == (n, rest) |
| Integers.NonMinimalLengthAccepted | src/python/ct/crypto/my_asn1/types.py:150-156 | read_length accepts long forms for lengths that fit the short form, and a leading zero octet before an octet of 0x80 or more; a zero octet before an octet below 0x80 is refused, as decode_int refuses it |
| Tags.TagOctet | src/python/ct/crypto/my_asn1/types.py:445-452 | a tag's identifier octet carries the tag number in its low five bits, never 31 |
| Tags.ReadTag | src/python/ct/crypto/my_asn1/types.py:757 | reading a tag succeeds on a non-empty buffer whose first octet is not a high-tag-number octet, giving the tag written as that octet and the rest; an empty buffer is a tag error, a high-tag-number octet malformed |
| Tags.ReadTagOctet | src/python/ct/crypto/my_asn1/types.py:757 | reading the octet written for a tag gives back that tag |
| Tags.TagOctetInjective | src/python/ct/crypto/my_asn1/types.py:445-448 | distinct tags have distinct identifier octets, so comparing octets compares tags |
| Schemas.ApplyUniversal | src/python/ct/crypto/my_asn1/types.py:182-200 | a universal tag applies only to an untagged type, and then the tag tuple is exactly that tag |
| Schemas.ApplyExplicit | src/python/ct/crypto/my_asn1/types.py:231-248 | a UNIVERSAL class is refused; otherwise one constructed tag of the class is appended and the earlier tags are unchanged |
| Schemas.ApplyImplicit | src/python/ct/crypto/my_asn1/types.py:279-307 | a UNIVERSAL class or an untagged type is refused; otherwise only the last tag is replaced, keeping its constructed bit |
| Schemas.Undecoded | src/python/ct/crypto/my_asn1/types.py:737-742 | an Any's value is its raw bytes: comparing by value ignores what was decoded |
| Schemas.ScalarBaseTypes | src/python/ct/crypto/my_asn1/types.py:521-651 | Boolean, Integer, BitString and OctetString are their kinds after @Universal(n, PRIMITIVE); every scalar base type starts with its X.690 identifier octet (01, 02, 03, 04, 0C, 13, 14, 16, 17, 18, 1C, 1E), the string types differing only there; Any is untagged |
| Schemas.ConstructedBaseTypes | src/python/ct/crypto/my_asn1/types.py:996-1084 | SequenceOf, SetOf and Sequence are their kinds after @Universal(16, 17 and 16, CONSTRUCTED), starting with 30, 31 and 30 |
| Schemas.FindAltByTag | src/python/ct/crypto/my_asn1/types.py:930-935 | finds the alternative whose outer tag is the given tag, or reports that none has it |
| Schemas.FindAltByName | src/python/ct/crypto/my_asn1/types.py:886-890 | finds the first alternative, in component order, whose name is set, or reports that none is |
| Schemas.IndexOfName | src/python/ct/crypto/my_asn1/types.py:1189-1191 | finds the first component with the given name, or reports that none has it |
| Schemas.FindLookup | src/python/ct/crypto/my_asn1/types.py:1190-1191 | finds the lookup entry whose key equals the selector's value, compared by value, or reports that none does |
| Scalars.BoolOctets | src/python/ct/crypto/my_asn1/types.py:531-532 | a Boolean encodes as the single octet FF or 00 |
| Scalars.DecodeBool | src/python/ct/crypto/my_asn1/types.py:539-548 | Boolean contents must be one octet, and in strict mode FF or 00 |
| Scalars.BoolRoundTrip | src/python/ct/crypto/my_asn1/types.py:531-548 | an encoded Boolean decodes to itself in both modes |
| Scalars.BoolDecodeCanonical | src/python/ct/crypto/my_asn1/types.py:543-547 | in strict mode only the DER octet is accepted; any octet but 00 reads as true |
| Scalars.PadCount | src/python/ct/crypto/my_asn1/types.py:664 | the pad count is below 8 and fills the bits to a whole number of octets |
| Scalars.BitStringOctets | src/python/ct/crypto/my_asn1/types.py:663-669 | the encoding starts with the pad count |
| Scalars.EncodeBitString | src/python/ct/crypto/my_asn1/types.py:663-669 | the octet-appending loop computes BitStringOctets, and the result decodes back to the bits |
| Scalars.DecodeBits | src/python/ct/crypto/my_asn1/types.py:685-699 | empty contents, a pad above 7 and a pad with no octets are refused; whatever is accepted is exactly the encoding of the bits returned, so no padding bit is set |
| Scalars.DecodeBitsCanonical | src/python/ct/crypto/my_asn1/types.py:694-698 | dropping zero padding bits from the unpacked octets gives bits that re-encode to the input |
| Scalars.BitStringRoundTrip | src/python/ct/crypto/my_asn1/types.py:663-699 | decoding an encoded bit string gives the bits back |
| Scalars.UnpackPack | src/python/ct/crypto/my_asn1/types.py:667-668 | packing whole octets of bits high bit first and unpacking them with format(b, "08b") gives the bits back |
| Scalars.PackUnpack | src/python/ct/crypto/my_asn1/types.py:694 | unpacking octets to bits and packing them again gives the octets back |
| Scalars.FiveBitExample | src/python/ct/crypto/my_asn1/types.py:663-699 | 10110 encodes as 03 B0, decodes back, and 03 B1 is refused for a set padding bit |
| OctetOrder.LeTotal | src/python/ct/crypto/my_asn1/types.py:1022 | the byte-string order sort() uses relates any two strings |
| OctetOrder.LeAntisymmetric | src/python/ct/crypto/my_asn1/types.py:1022 | two strings each no greater than the other are equal |
| OctetOrder.LeTransitive | src/python/ct/crypto/my_asn1/types.py:1022 | the byte-string order is transitive |
| OctetOrder.SortOctets | src/python/ct/crypto/my_asn1/types.py:1021-1022 | sorting gives an ascending arrangement of the same encodings, duplicates kept |
| OctetOrder.SortedUnique | src/python/ct/crypto/my_asn1/types.py:1022 | two ascending arrangements of the same encodings are the same sequence |
| OctetOrder.SortPermutationInvariant | src/python/ct/crypto/my_asn1/types.py:1020-1023 | sorting any two arrangements of the same encodings gives the same result |
| Codec.Wrap | src/python/ct/crypto/my_asn1/types.py:427-428 | one header can be put in front exactly when the length can be encoded, and then starts with the tag octet |
| Codec.Frame | src/python/ct/crypto/my_asn1/types.py:425-429 | with no tags the contents are the encoding; otherwise it is longer and starts with the outer tag's octet |
| Codec.ReadFrame | src/python/ct/crypto/my_asn1/types.py:443-462 | a missing or wrong outer tag is a tag error, every failure is an ASN.1 error, and on success the contents and the rest are shorter than the input |
| Codec.ReadFrameMalformed | src/python/ct/crypto/my_asn1/types.py:452-459 | past a matching outer tag, a length that cannot be read or that claims more bytes than follow makes the frame malformed |
| Codec.Encode | src/python/ct/crypto/my_asn1/types.py:419-429 | an untagged type's encoding is its contents; a tagged type's starts with the identifier octet of its outer tag (RoundTrip.ReadRoundTrip reads it back) |
| Codec.EncodeContent | src/python/ct/crypto/my_asn1/types.py:531-1135 | every kind's _encode_value; a value of another kind than the schema's is refused (RoundTrip.ContentRoundTrip inverts it) |
| Codec.EncodeFields | src/python/ct/crypto/my_asn1/types.py:1117-1135 | Sequence._encode_value succeeds only when every unset component is optional (RoundTrip.EncodeFieldsStep and Properties.MandatoryMissing state when a component is written) |
| Codec.Decode | src/python/ct/crypto/my_asn1/types.py:473-487 | decode succeeds exactly when read succeeds and leaves nothing, and then gives read's value |
| Codec.DecodeContent | src/python/ct/crypto/my_asn1/types.py:539-1199 | every kind's _decode_value; what it decodes is a value of the schema's own kind, and a Sequence with bytes left after its last component is malformed |
| Codec.ReadElems | src/python/ct/crypto/my_asn1/types.py:1004-1009 | the SequenceOf/SetOf loop reads elements until the contents are used up, never more elements than octets (RoundTrip.ElemsRoundTrip reads back concatenated encodings) |
| Codec.DecodeAlternative | src/python/ct/crypto/my_asn1/types.py:937-947 | an alternative with other than one tag is decoded from the whole TLV by decode, with strict passed through; the single-tag case, corrected to pass strict, is pinned by Properties.ChoiceDecodesAsAlternative |
| Codec.PeekTLV | src/python/ct/crypto/my_asn1/types.py:756-761 | the first tag, the header size and the whole TLV's size, which lies within the buffer; nothing left to read is a tag error, anything else unreadable is malformed |
| Codec.Read | src/python/ct/crypto/my_asn1/types.py:431-470 | what read leaves is shorter than its input |
| Codec.DecodeReadahead | src/python/ct/crypto/my_asn1/types.py:927-948 | a decoded Choice has exactly one alternative set; a wire tag that no alternative has as its outer tag is a tag error; a Choice without alternatives (no tag map) is a schema error |
| Codec.EncodeEach | src/python/ct/crypto/my_asn1/types.py:1000 | one encoding per element |
| Codec.ReadFields | src/python/ct/crypto/my_asn1/types.py:1164-1183 | one field per component, and the rest is no longer than the input |
| Codec.ResolveDefinedBy | src/python/ct/crypto/my_asn1/types.py:1187-1199 | the second pass keeps one field per component |
| CodecLoops.FrameFailureExtends | src/python/ct/crypto/my_asn1/types.py:426-428 | once one header cannot be written, the whole encoding fails |
| CodecLoops.EncodeValue | src/python/ct/crypto/my_asn1/types.py:419-429 | the loop over the tags, innermost first, computes Encode |
| CodecLoops.ReadHeaders | src/python/ct/crypto/my_asn1/types.py:443-462 | the loop over the tags, outermost first, computes ReadFrame |
| CodecLoops.DecodeElements | src/python/ct/crypto/my_asn1/types.py:1004-1009 | the SequenceOf/SetOf decoding loop computes ReadElems |
| CodecLoops.ReadComponents | src/python/ct/crypto/my_asn1/types.py:1163-1183 | the first pass of Sequence decoding computes ReadFields |
| CodecLoops.ReadFieldsStep | src/python/ct/crypto/my_asn1/types.py:1165-1183 | a tag error on an optional component records its default without consuming bytes, any other error ends the pass, and a success records the value |
| CodecLoops.ResolveComponents | src/python/ct/crypto/my_asn1/types.py:1187-1199 | the second pass of Sequence decoding computes ResolveDefinedBy |
| CodecLoops.DecodeSequence | src/python/ct/crypto/my_asn1/types.py:1162-1199 | both passes, with leftover bytes refused in between, compute DecodeContent |
| Framing.FrameRoundTrip | src/python/ct/crypto/my_asn1/types.py:419-462 | reading the headers encode wrote gives back the contents and the bytes that follow |
| Framing.PeekFramed | src/python/ct/crypto/my_asn1/types.py:756-761 | peeking at an encoding finds its outer tag, its whole length and, inside, the inner encoding |
| Framing.ReadFrameExtend | src/python/ct/crypto/my_asn1/types.py:443-462 | bytes after a frame do not change how it is read |
| Framing.ReadExtend | src/python/ct/crypto/my_asn1/types.py:431-470 | bytes after a value do not change how it is read; they are left over |
| Framing.DecodeRejectsTrailing | src/python/ct/crypto/my_asn1/types.py:473-487 | decode returns what read returns when nothing is left over, and refuses the same bytes with anything appended |
| Framing.OuterLengthNotMatched | src/python/ct/crypto/my_asn1/types.py:456-462 | an explicit tag's length is only checked to be large enough: two byte strings with different outer lengths decode to the same Integer |
| Framing.ReadLengthSuffix | src/python/ct/crypto/my_asn1/types.py:135-156 | the bytes read_length leaves are the tail of its input |
| Framing.ReadFrameSuffix | src/python/ct/crypto/my_asn1/types.py:443-462 | the contents and the rest of a frame, together, are the tail of the input |
| Framing.ReadSuffix | src/python/ct/crypto/my_asn1/types.py:431-470 | the bytes Abstract.read leaves are the tail of its input |
| Framing.ReadFieldsSuffix | src/python/ct/crypto/my_asn1/types.py:1164-1183 | the bytes the first pass of Sequence decoding leaves are the tail of its input |
| RoundTrip.EncodingStart | src/python/ct/crypto/my_asn1/types.py:419-429 | an encoding starts with a tag the type can start with |
| RoundTrip.ReadRoundTrip | src/python/ct/crypto/my_asn1/types.py:419-470 | read(encode(v) + rest) gives v, compared by value, and rest |
| RoundTrip.ChoiceRoundTrip | src/python/ct/crypto/my_asn1/types.py:886-957 | a Choice's contents are one TLV that the readahead decoder reads back to the same choice |
| RoundTrip.ContentRoundTrip | src/python/ct/crypto/my_asn1/types.py:531-1199 | every kind's _decode_value reads back what its _encode_value writes |
| RoundTrip.ElemsRoundTrip | src/python/ct/crypto/my_asn1/types.py:999-1009 | the element loop reads back the concatenated element encodings |
| RoundTrip.FieldsRoundTrip | src/python/ct/crypto/my_asn1/types.py:1117-1183 | the first pass reads back every component, including omitted ones as their defaults, and uses up the encoding |
| RoundTrip.EncodeFieldsStep | src/python/ct/crypto/my_asn1/types.py:1119-1134 | a component is left out exactly when it is unset (and optional) or encodes as its encoded default |
| RoundTrip.AbsentMismatch | src/python/ct/crypto/my_asn1/types.py:1165-1181 | what follows an omitted optional component is a tag error for it, so it is read as absent |
| RoundTrip.ResolveRoundTrip | src/python/ct/crypto/my_asn1/types.py:1187-1199 | the second pass succeeds on a read-back encoding and keeps every value |
| RoundTrip.FindLookupSame | src/python/ct/crypto/my_asn1/types.py:1190-1191 | the lookup by selector value does not depend on decoded parts |
| RoundTrip.DecodeRoundTrip | src/python/ct/crypto/my_asn1/types.py:419-487 | decode(encode(v)) == v, compared by value, in strict and lenient mode |
| RoundTrip.EncodingDeterminesValue | src/python/ct/crypto/my_asn1/types.py:419-429 | two conforming values of a well-formed schema with the same encoding are equal by value |
| Builders.BuildTagMap | src/python/ct/crypto/my_asn1/types.py:798-817 | MetaChoice accepts exactly alternatives with distinct names, each tagged, with distinct outer tags, and maps each outer tag to its alternative's name |
| Builders.TagMapLookup | src/python/ct/crypto/my_asn1/types.py:930-935 | the tag map and the decoder's search by outer tag find the same alternative |
| Builders.AcceptedChoiceWellFormed | src/python/ct/crypto/my_asn1/types.py:798-817 | a Choice MetaChoice accepts is one the round trip covers |
| Builders.MakeComponent | src/python/ct/crypto/my_asn1/types.py:1039-1064 | a default makes the component optional, and its encoding is computed when the component is built; an unencodable default fails |
| Builders.MakeComponentConsistent | src/python/ct/crypto/my_asn1/types.py:1058-1062 | a built component's encoded default is the encoding of its default |
| Builders.BuildKeyMap | src/python/ct/crypto/my_asn1/types.py:1070-1080 | MetaSequence accepts exactly components with distinct names, and maps each name to its component |
| Builders.KeyMapLookup | src/python/ct/crypto/my_asn1/types.py:1075-1078 | the key map and the search by name find the same component |
| Containers.ConvertChoice | src/python/ct/crypto/my_asn1/types.py:905-924 | an initializer is accepted when empty or holding one key of the type (or an unset one), and gives exactly the alternatives given a value, at most one; anything else is a ValueError |
| Containers.ChoiceValue.constructor | src/python/ct/crypto/my_asn1/types.py:824-848 | a Choice starts with at most one alternative set |
| Containers.ChoiceValue.GetItem | src/python/ct/crypto/my_asn1/types.py:850-856 | a set key gives its value, an unset alternative's name gives None, any other key is a KeyError |
| Containers.ChoiceValue.Length | src/python/ct/crypto/my_asn1/types.py:879-880 | a Choice holds at most one alternative, none exactly when unset |
| Containers.ChoiceValue.SetItem | src/python/ct/crypto/my_asn1/types.py:858-867 | setting an alternative replaces the whole choice with it, None clears it, and an unknown key is a KeyError that changes nothing |
| Containers.ChoiceValue.DelItem | src/python/ct/crypto/my_asn1/types.py:869-874 | deleting the set key clears the choice, another alternative's name changes nothing, and any other key is a KeyError that changes nothing |
| Containers.InsertPosition | src/python/ct/crypto/my_asn1/types.py:981-984 | list.insert's position: negative indices count from the end, and out-of-range ones are clamped |
| Containers.ListIndex | src/python/ct/crypto/my_asn1/types.py:963-976 | an index is valid from -n to n - 1, negative ones counting from the end; any other is an IndexError |
| Containers.ListDelete | src/python/ct/crypto/my_asn1/types.py:975-976 | deleting at a valid index removes one element |
| Containers.InsertThenDelete | src/python/ct/crypto/my_asn1/types.py:975-984 | insert adds the value at its position and keeps the rest; deleting it there restores the list |
| Containers.DeleteRemovesOne | src/python/ct/crypto/my_asn1/types.py:975-976 | deleting removes exactly the element at the index |
| Containers.RepeatedValue.constructor | src/python/ct/crypto/my_asn1/types.py:987-993 | a SequenceOf or SetOf starts with the given elements |
| Containers.RepeatedValue.GetItem | src/python/ct/crypto/my_asn1/types.py:963-964 | indexing gives the element at the index, negative ones counting from the end, or an IndexError |
| Containers.RepeatedValue.SetItem | src/python/ct/crypto/my_asn1/types.py:966-973 | a valid index is overwritten and reads back the new value; an invalid one changes nothing |
| Containers.RepeatedValue.DelItem | src/python/ct/crypto/my_asn1/types.py:975-976 | a valid index is deleted; an invalid one changes nothing |
| Containers.RepeatedValue.Length | src/python/ct/crypto/my_asn1/types.py:978-979 | len(x) is the n for which exactly the indices -n to n - 1 are valid |
| Containers.RepeatedValue.Insert | src/python/ct/crypto/my_asn1/types.py:981-984 | the elements become the old ones with the value inserted as list.insert does |
| Containers.ConvertSequence | src/python/ct/crypto/my_asn1/types.py:1151-1159 | an initializer is accepted exactly when all its keys are component names, and gives one field per component; an unknown key is a ValueError, or an AttributeError when the Sequence has no components |
| Containers.GetField | src/python/ct/crypto/my_asn1/types.py:1088-1089 | a component name gives the field of the first component of that name, any other key is a KeyError |
| Containers.ConvertThenGet | src/python/ct/crypto/my_asn1/types.py:1138-1159 | each given component reads back as given, a missing one as its default, and a defaulted component is never unset |
| Containers.AnyValue.FromRaw | src/python/ct/crypto/my_asn1/types.py:712-716 | an Any built from raw bytes holds them, undecoded |
| Containers.AnyValue.FromValue | src/python/ct/crypto/my_asn1/types.py:717-721 | an Any built from a value holds the value's encoding and the value itself; another Any is refused with a TypeError (types.py:766-768) |
| Containers.AnyValue.IsDecoded | src/python/ct/crypto/my_asn1/types.py:745-746 | decoded exactly when a decoded value is held |
| Containers.AnyValue.DecodeInner | src/python/ct/crypto/my_asn1/types.py:781-792 | decoding the raw bytes against a type stores the result, keeps the raw bytes, and on failure changes nothing |
| Properties.EncodeEachElements | src/python/ct/crypto/my_asn1/types.py:1000 | the element encodings succeed when each element encodes, and hold those encodings in list order |
| Properties.EncodeEachPermutation | src/python/ct/crypto/my_asn1/types.py:1021 | the encodings of two arrangements of the same elements are two arrangements of the same encodings |
| Properties.SetOfOrderIrrelevant | src/python/ct/crypto/my_asn1/types.py:1020-1023 | a SetOf encodes the same whatever the order of its elements |
| Properties.SetOfDecodesSorted | src/python/ct/crypto/my_asn1/types.py:1017-1033 | a SetOf whose elements are not in encoding order decodes from its encoding to elements taken from it, whose encodings are the sorted element encodings |
| Properties.ChoiceEncoding | src/python/ct/crypto/my_asn1/types.py:886-890 | an unset Choice cannot be encoded, and a set one encodes as its alternative |
| Properties.ChoiceDecodesAsAlternative | src/python/ct/crypto/my_asn1/types.py:893-957 | an untagged Choice on one whole TLV decodes, in either mode, exactly when the alternative its outer tag selects does, to that alternative's value |
| Properties.LenientSecondPass | src/python/ct/crypto/my_asn1/types.py:1193-1198 | in lenient mode the defined-by pass fails only on a schema error, never on an ASN.1 error |
| Properties.StrictSecondPass | src/python/ct/crypto/my_asn1/types.py:1193-1198 | in strict mode a successful defined-by pass has decoded every present Any whose selector value is in its lookup |
| Properties.SequenceLeftoverMalformed | src/python/ct/crypto/my_asn1/types.py:1184-1185 | bytes left in a Sequence's contents after its last component make the decoding malformed, whatever the second pass would do |
| Properties.AbsentTrailingAny | src/python/ct/crypto/my_asn1/types.py:1164-1183 | SEQUENCE { INTEGER, ANY OPTIONAL } decodes 30 03 02 01 05 in either mode to the integer 5 with the Any absent: the untagged Any finds no tag, which is the tag error that makes an optional component absent |
| Properties.SecondPassKeepsValues | src/python/ct/crypto/my_asn1/types.py:1187-1199 | the defined-by pass changes no value, compared as the source compares values |
| Properties.SecondPassKeepsPrefix | src/python/ct/crypto/my_asn1/types.py:1188-1199 | the defined-by pass leaves the components before its position untouched |
| Properties.MandatoryMissing | src/python/ct/crypto/my_asn1/types.py:1121-1125 | a Sequence with a mandatory component unset cannot be encoded |
| Findings.EncodeLengthAsWritten | src/python/ct/crypto/my_asn1/types.py:129-132 | encode_length as written: short form up to 127, otherwise chr(0x80 \| k) before the k octets, which leaves k unchanged from 128 up and fails above 255 |
| Findings.EncodeLengthAgrees | src/python/ct/crypto/my_asn1/types.py:120-132 | wherever the corrected encoder succeeds, the source writes the same header |
| Findings.DigitsPow256 | src/python/ct/crypto/my_asn1/types.py:51-55 | 256^j takes j + 1 octets, the first being 1 |
| Findings.LongLengthHeader | src/python/ct/crypto/my_asn1/types.py:131-132 | a length of 256^j for 127 <= j < 255 gets j + 1 as its first octet, and the corrected encoder refuses it |
| Findings.LongLengthUnreadable | src/python/ct/crypto/my_asn1/types.py:132 | for 256^127 that octet is 0x80, which read_length refuses |
| Findings.DecodeAlternativeAsWritten | src/python/ct/crypto/my_asn1/types.py:937-947 | the single-tag shortcut as written decodes strictly; alternatives with more tags are decoded as corrected |
| Findings.DecodeReadaheadAsWritten | src/python/ct/crypto/my_asn1/types.py:927-948 | in strict mode the as-written readahead decoder agrees with the corrected one |
| Findings.LenientChoiceShortcut | src/python/ct/crypto/my_asn1/types.py:937-940 | a BER Boolean that lenient decoding accepts alone, and inside the corrected Choice, fails inside the Choice as written |
| Findings.ResolveDefinedByAsWritten | src/python/ct/crypto/my_asn1/types.py:1186-1199 | the defined-by pass as written, which calls decode_inner on an absent component: wherever it succeeds it agrees with the corrected pass, and where only the corrected pass succeeds it fails with the AttributeError |
| Findings.AbsentDefinedByParameters | src/python/ct/crypto/my_asn1/types.py:1163-1199 | SEQUENCE { INTEGER, ANY DEFINED BY it OPTIONAL } on 30 03 02 01 05: the first pass finds the Any absent, the corrected decoding gives that record, and the pass as written fails with the AttributeError in both modes |

## Left out

- Multi-byte tags, and `tag.py` as a whole. A tag is one identifier octet with a number below 31. A high-tag-number octet (low five bits all set) is reported as malformed.
- `Tags.ReadTag`: what `Tag.read` does on an empty buffer is decided in `tag.py`, which is not part of this model. The model reports it as a tag error, as the tagged path of `read` does when it compares the expected tag with an empty prefix (types.py:445-448), so an absent optional untagged Any or Choice at the end of a Sequence reads as absent. A tag or length that is there but unreadable is malformed.
- The error class hierarchy beyond the distinction between tag errors, other ASN.1 errors, errors of a misdeclared or misused type and bad arguments; the mapping is given above.
- `Schemas.ApplyUniversal`: the decorator assigns `tags` on the class it is given (types.py:199), so applying it to an existing class retags that class itself. The function returns a new schema and leaves its argument as it was; the in-place retagging of a shared class is not modelled.
- `Schemas.ApplyExplicit`: likewise (types.py:247). `Explicit(0, tag.APPLICATION)(Integer)`, the callable form in the docstrings, retags `Integer` itself and every later use of it; the model gives a new schema and `Integer` keeps its tag.
- `Schemas.ApplyImplicit`: likewise (types.py:306); the original class's tags are not replaced in place.
- Python's class machinery: `Abstract.explicit`/`implicit` building subclasses at run time, the metaclasses as such, and the `MutableMapping`/`MutableSequence` mixins. Types are `Schema` values; the metaclass checks are `Builders` methods.
- The conversions in `_convert_value`: `bool()`, `int()`, `str`/`buffer` checks, and building a component from a value of another type. Values are already of the right kind.
- `__repr__`, `__str__`, `__hash__`, `__iter__`, the ordering of `Simple`, `__bool__` and `__int__`.
- Character sets and value constraints of the string and time types, which the source does not check either.
- Slice assignment in `Repeated.__setitem__`: it names an undefined variable and always fails. Only integer indices are modelled.
- `Sequence.__setitem__` and `__delitem__`: they write to an attribute that does not exist, so they always fail.
- `Containers.AnyValue.DecodeInner`: the RuntimeError that the docstring of `decode_inner` promises for a second decode. The code overwrites, and so does the model.
- Aliasing: every Sequence that stores a component's default stores the same instance (types.py:1141, 1181), and `Sequence.__getitem__` hands it out (types.py:1089). Mutating it through one Sequence, or decoding a defined-by default in place, changes it for all of them, and the `encoded_default` computed once when the component is built (types.py:1058-1062) goes stale. Values here are immutable and defaults are copied, so neither the shared mutation nor the stale encoding is modelled.
- Python's recursion limit on deeply nested input.
- `Schemas.FindAltByName`: a Choice value with more than one key cannot be built through the source's methods, but if one were encoded, the source picks the first value of a dict; the model picks the first alternative in component order. Components are a sequence, not a dict with its iteration order.
- `RoundTrip.DecodeRoundTrip` is proved for well-formed schemas and conforming values (`RoundTrip.WellFormed`, `RoundTrip.Conforms`): every optional component is tagged and its outer tag cannot start the components that may follow it when it is absent, Choice alternatives with distinct outer tags, defined-by lookups that decode their Any, and a SetOf's elements already in the order of their encodings. For a SetOf whose elements are not, decoding gives them back sorted (`Properties.SetOfDecodesSorted`), which the source's order-dependent equality tells apart from the original. The source promises nothing beyond that either.
- `RoundTrip.EncodingDeterminesValue` holds for the same conforming values only: SetOf values whose elements differ only in order share one encoding.
- `Integers.EncodeLength` refuses a length that needs 127 length octets as well as longer ones. Section 8.1.3.5(c) of X.690 forbids the initial octet 0xFF, and 0x80 (127 + 1 overflowing into the indefinite form) is unreadable; see "## Findings".
- The empty Choice schema: MetaChoice builds no tag map for it, so decoding one fails with an AttributeError, reported here as a schema error.

## Findings

| source | as written | input that shows it | evidently intended | confidence | as-written member | corrected member |
|---|---|---|---|---|---|---|
| src/python/ct/crypto/my_asn1/types.py:132 | `chr(0x80 \| k)` for k length octets: for k from 128 to 255 the OR leaves k unchanged, and chr fails above 255 | a length of 256^127, which takes 128 octets: the initial octet is 0x80, and read_length refuses it | refuse lengths that need more than 126 length octets (X.690 section 8.1.3.5), so every written length reads back (Integers.LengthRoundTrip) | not executed | Findings.LongLengthUnreadable | Integers.EncodeLength |
| src/python/ct/crypto/my_asn1/types.py:940 | the single-tag shortcut builds the alternative without passing `strict`, so it is always decoded strictly | CHOICE { flag BOOLEAN } in lenient mode on 01 01 01: the Boolean alone decodes to true, the Choice fails | pass `strict` through, as the multi-tag branch at line 944 does, so that a Choice decodes as its alternative in either mode (Properties.ChoiceDecodesAsAlternative) | not executed | Findings.LenientChoiceShortcut | Codec.DecodeAlternative |
| src/python/ct/crypto/my_asn1/types.py:1190-1195 | the lookup is made whenever the selector's value is in it, and `decode_inner` is then called on whatever the first pass stored, including the None of an absent optional component; the AttributeError is not an ASN.1 error, so lenient mode does not swallow it either | SEQUENCE { algorithm INTEGER, parameters ANY DEFINED BY algorithm OPTIONAL }, with 5 mapped to BOOLEAN, on 30 03 02 01 05: the parameters are absent and decoding fails in both modes | skip a component the first pass found absent, so the record decodes with the parameters absent, every present resolvable Any is decoded (Properties.StrictSecondPass) and no value changes (Properties.SecondPassKeepsValues) | not executed | Findings.AbsentDefinedByParameters | Codec.ResolveDefinedBy |
