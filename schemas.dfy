/** Schemas (the source's ASN.1 type classes) and values (their instances).
    A schema is a tag list, innermost first, plus the kind of the type; the
    source's dynamically created classes become immutable descriptor values. */
module Schemas {
  import opened Wrappers
  import opened Errors
  import opened Integers
  import opened Tags

  type Bit = b: nat | b < 2

  datatype Schema = Schema(tags: seq<Tag>, kind: Kind)

  datatype Kind =
    | BoolK                               // Boolean
    | IntK                                // Integer
    | StringK                             // ASN1String and its subclasses
    | BitStringK                          // BitString
    | AnyK                                // Any
    | ChoiceK(alts: seq<Alternative>)     // Choice with its components
    | SequenceOfK(elem: Schema)           // SequenceOf with its component
    | SetOfK(elem: Schema)                // SetOf with its component
    | SequenceK(comps: seq<Component>)    // Sequence with its components

  /** One entry of a Choice's components: a name and the alternative's type. */
  datatype Alternative = Alternative(name: string, schema: Schema)

  /** A Sequence component (the source's Component class). `encodedDefault` is
      the encoding of `default`, computed once when the component is built. */
  datatype Component = Component(
    name: string,
    schema: Schema,
    optional: bool,
    default: Option<Value>,
    encodedDefault: Option<Bytes>,
    definedBy: Option<DefinedBy>)

  /** defined_by and lookup: the component named `selector` chooses, through
      `lookup`, the type against which an Any component is decoded. */
  datatype DefinedBy = DefinedBy(selector: string, lookup: seq<LookupEntry>)

  datatype LookupEntry = LookupEntry(key: Value, schema: Schema)

  /** The value of an instance. An Any holds its undecoded bytes and, once
      decoded against some type, that decoded value. A Choice holds the dict of
      its set alternative; a Sequence holds one optional value per component, in
      component order. */
  datatype Value =
    | BoolV(b: bool)
    | IntV(i: int)
    | StrV(octets: Bytes)
    | BitsV(bits: seq<Bit>)
    | AnyV(raw: Bytes, decoded: Option<Value>)
    | ChoiceV(chosen: map<string, Value>)
    | ListV(elems: seq<Value>)
    | RecordV(fields: seq<Option<Value>>)

  /** The value with every Any's decoded part dropped. The source compares
      instances by `value`, and an Any's value is its undecoded bytes, so two
      values are equal in the source exactly when their Undecoded forms are. */
  function Undecoded(v: Value): (r: Value)
    ensures r.AnyV? <==> v.AnyV?
    ensures v.AnyV? ==> r == AnyV(v.raw, None)
  {
    match v
    case AnyV(raw, _) => AnyV(raw, None)
    case ChoiceV(m) => ChoiceV(map k | k in m :: Undecoded(m[k]))
    case ListV(es) => ListV(seq(|es|, i requires 0 <= i < |es| => Undecoded(es[i])))
    case RecordV(fs) =>
      RecordV(seq(|fs|, i requires 0 <= i < |fs| =>
        if fs[i].Some? then Some(Undecoded(fs[i].value)) else None))
    case _ => v
  }

  /** The outermost tag: the last one applied, the first one on the wire. */
  function OuterTag(s: Schema): Tag
    requires |s.tags| > 0
  {
    s.tags[|s.tags| - 1]
  }

  // The tagging operators.

  /** Universal(number, encoding) applied to a type: the sole base tag. */
  function ApplyUniversal(s: Schema, number: TagNumber, constructed: bool): (r: Result<Schema, Error>)
    ensures r.Success? <==> s.tags == []
    ensures r.Failure? ==> r.error == SchemaError
    ensures r.Success? ==> r.value == Schema([Tag(Universal, constructed, number)], s.kind)
  {
    if |s.tags| > 0 then Failure(SchemaError)
    else Success(s.(tags := [Tag(Universal, constructed, number)]))
  }

  /** Explicit(number, tag_class) applied to a type: one more, constructed, tag
      outside the existing ones. */
  function ApplyExplicit(s: Schema, number: TagNumber, cls: TagClass): (r: Result<Schema, Error>)
    ensures r.Success? <==> cls != Universal
    ensures r.Failure? ==> r.error == SchemaError
    ensures r.Success? ==> r.value.kind == s.kind && |r.value.tags| == |s.tags| + 1
    ensures r.Success? ==> r.value.tags[..|s.tags|] == s.tags
    ensures r.Success? ==> OuterTag(r.value) == Tag(cls, true, number)
  {
    if cls == Universal then Failure(SchemaError)
    else Success(s.(tags := s.tags + [Tag(cls, true, number)]))
  }

  /** Implicit(number, tag_class) applied to a type: the outermost tag replaced
      by one of the given class and number that keeps its constructed bit. */
  function ApplyImplicit(s: Schema, number: TagNumber, cls: TagClass): (r: Result<Schema, Error>)
    ensures r.Success? <==> cls != Universal && s.tags != []
    ensures r.Failure? ==> r.error == SchemaError
    ensures r.Success? ==> r.value.kind == s.kind && |r.value.tags| == |s.tags|
    ensures r.Success? ==> r.value.tags[..|s.tags| - 1] == s.tags[..|s.tags| - 1]
    ensures r.Success? ==> OuterTag(r.value) == Tag(cls, OuterTag(s).constructed, number)
  {
    if cls == Universal then Failure(SchemaError)
    else if |s.tags| == 0 then Failure(SchemaError)
    else Success(s.(tags := s.tags[|s.tags| - 1 := Tag(cls, OuterTag(s).constructed, number)]))
  }

  // The base types, with the universal tags their classes are decorated with.

  function UniversalPrimitive(n: TagNumber, k: Kind): Schema {
    Schema([Tag(Universal, false, n)], k)
  }

  const BooleanType: Schema := UniversalPrimitive(1, BoolK)
  const IntegerType: Schema := UniversalPrimitive(2, IntK)
  const BitStringType: Schema := UniversalPrimitive(3, BitStringK)
  const OctetStringType: Schema := UniversalPrimitive(4, StringK)
  const UTF8StringType: Schema := UniversalPrimitive(12, StringK)
  const PrintableStringType: Schema := UniversalPrimitive(19, StringK)
  const TeletexStringType: Schema := UniversalPrimitive(20, StringK)
  const IA5StringType: Schema := UniversalPrimitive(22, StringK)
  const UTCTimeType: Schema := UniversalPrimitive(23, StringK)
  const GeneralizedTimeType: Schema := UniversalPrimitive(24, StringK)
  const UniversalStringType: Schema := UniversalPrimitive(28, StringK)
  const BMPStringType: Schema := UniversalPrimitive(30, StringK)
  const AnyType: Schema := Schema([], AnyK)

  function SequenceOfType(elem: Schema): Schema {
    Schema([Tag(Universal, true, 16)], SequenceOfK(elem))
  }

  function SetOfType(elem: Schema): Schema {
    Schema([Tag(Universal, true, 17)], SetOfK(elem))
  }

  function SequenceType(comps: seq<Component>): Schema {
    Schema([Tag(Universal, true, 16)], SequenceK(comps))
  }

  /** Each scalar base type is its untagged kind after its class's
      @Universal decoration, and starts on the wire with the identifier octet
      X.690 section 8.1.2 gives its universal tag number. The string kinds
      share one representation and differ only in that octet; Any carries no
      tag. */
  lemma ScalarBaseTypes()
    ensures ApplyUniversal(Schema([], BoolK), 1, false) == Success(BooleanType)
    ensures ApplyUniversal(Schema([], IntK), 2, false) == Success(IntegerType)
    ensures ApplyUniversal(Schema([], BitStringK), 3, false) == Success(BitStringType)
    ensures ApplyUniversal(Schema([], StringK), 4, false) == Success(OctetStringType)
    ensures TagOctet(OuterTag(BooleanType)) == 0x01 && TagOctet(OuterTag(IntegerType)) == 0x02
    ensures TagOctet(OuterTag(BitStringType)) == 0x03 && TagOctet(OuterTag(OctetStringType)) == 0x04
    ensures TagOctet(OuterTag(UTF8StringType)) == 0x0C && TagOctet(OuterTag(PrintableStringType)) == 0x13
    ensures TagOctet(OuterTag(TeletexStringType)) == 0x14 && TagOctet(OuterTag(IA5StringType)) == 0x16
    ensures TagOctet(OuterTag(UTCTimeType)) == 0x17 && TagOctet(OuterTag(GeneralizedTimeType)) == 0x18
    ensures TagOctet(OuterTag(UniversalStringType)) == 0x1C && TagOctet(OuterTag(BMPStringType)) == 0x1E
    ensures AnyType.tags == []
  {
  }

  /** SequenceOf, SetOf and Sequence carry the constructed universal tags 16,
      17 and 16, so their encodings start with 0x30, 0x31 and 0x30. */
  lemma ConstructedBaseTypes(elem: Schema, comps: seq<Component>)
    ensures ApplyUniversal(Schema([], SequenceOfK(elem)), 16, true) == Success(SequenceOfType(elem))
    ensures ApplyUniversal(Schema([], SetOfK(elem)), 17, true) == Success(SetOfType(elem))
    ensures ApplyUniversal(Schema([], SequenceK(comps)), 16, true) == Success(SequenceType(comps))
    ensures TagOctet(OuterTag(SequenceOfType(elem))) == 0x30 && TagOctet(OuterTag(SetOfType(elem))) == 0x31
    ensures TagOctet(OuterTag(SequenceType(comps))) == 0x30
  {
  }

  // Lookups used by Choice and Sequence.

  /** The Choice tag map: the first alternative whose outer tag is t. */
  function FindAltByTag(alts: seq<Alternative>, t: Tag, from: nat := 0): (r: Option<nat>)
    requires from <= |alts|
    ensures r.Some? ==> from <= r.value < |alts| && |alts[r.value].schema.tags| > 0
                        && OuterTag(alts[r.value].schema) == t
    ensures r.Some? ==> forall j :: from <= j < r.value ==> !HasOuterTag(alts[j].schema, t)
    ensures r.None? ==> forall j :: from <= j < |alts| ==> !HasOuterTag(alts[j].schema, t)
    decreases |alts| - from
  {
    if from == |alts| then None
    else if HasOuterTag(alts[from].schema, t) then Some(from)
    else FindAltByTag(alts, t, from + 1)
  }

  predicate HasOuterTag(s: Schema, t: Tag) {
    |s.tags| > 0 && OuterTag(s) == t
  }

  /** The first alternative whose name is set in a Choice value. */
  function FindAltByName(alts: seq<Alternative>, chosen: map<string, Value>, from: nat := 0): (r: Option<nat>)
    requires from <= |alts|
    ensures r.Some? ==> from <= r.value < |alts| && alts[r.value].name in chosen
    ensures r.Some? ==> forall j :: from <= j < r.value ==> alts[j].name !in chosen
    ensures r.None? ==> forall j :: from <= j < |alts| ==> alts[j].name !in chosen
    decreases |alts| - from
  {
    if from == |alts| then None
    else if alts[from].name in chosen then Some(from)
    else FindAltByName(alts, chosen, from + 1)
  }

  /** The position of the first component called `name`. */
  function IndexOfName(comps: seq<Component>, name: string, from: nat := 0): (r: Option<nat>)
    requires from <= |comps|
    ensures r.Some? ==> from <= r.value < |comps| && comps[r.value].name == name
    ensures r.Some? ==> forall j :: from <= j < r.value ==> comps[j].name != name
    ensures r.None? ==> forall j :: from <= j < |comps| ==> comps[j].name != name
    decreases |comps| - from
  {
    if from == |comps| then None
    else if comps[from].name == name then Some(from)
    else IndexOfName(comps, name, from + 1)
  }

  /** lookup.get(key): the entry whose key equals the selector's value (by the
      source's value equality). An absent selector finds nothing. */
  function FindLookup(lookup: seq<LookupEntry>, key: Option<Value>, from: nat := 0): (r: Option<nat>)
    requires from <= |lookup|
    ensures r.Some? ==> from <= r.value < |lookup| && key.Some?
                        && Undecoded(lookup[r.value].key) == Undecoded(key.value)
    ensures r.None? ==> key.None? || forall j :: from <= j < |lookup| ==>
                          Undecoded(lookup[j].key) != Undecoded(key.value)
    decreases |lookup| - from
  {
    if key.None? || from == |lookup| then None
    else if Undecoded(lookup[from].key) == Undecoded(key.value) then Some(from)
    else FindLookup(lookup, key, from + 1)
  }
}
