/** The schema-directed DER encoder and strict/lenient decoder: Abstract.encode,
    Abstract.read and Abstract.decode together with every kind's
    _encode_value / _decode_value / _read. The source dispatches through class
    methods; here one family of mutually recursive functions matches on the
    schema's kind. Recursion descends into the schema (components, elements,
    alternatives, looked-up types) or consumes input. */
module Codec {
  import opened Wrappers
  import opened Errors
  import opened Integers
  import opened Tags
  import opened Schemas
  import opened Scalars
  import opened OctetOrder

  /** The concatenation of some encodings ("".join). */
  function Concat(parts: seq<Bytes>): (r: Bytes)
    ensures parts == [] ==> r == []
  {
    if parts == [] then [] else parts[0] + Concat(parts[1..])
  }

  // Framing.

  /** One tag-length header put in front of some contents. */
  function Wrap(t: Tag, inner: Bytes): (r: Result<Bytes, Error>)
    ensures r.Success? ==> |r.value| > |inner| && r.value[0] == TagOctet(t)
    ensures r.Success? <==> EncodeLength(|inner|).Success?
  {
    var h :- EncodeLength(|inner|);
    Success([TagOctet(t)] + h + inner)
  }

  /** The contents wrapped once per tag, innermost tag first (the loop of
      Abstract.encode), written from the outermost tag inwards. */
  function Frame(tags: seq<Tag>, content: Bytes): (r: Result<Bytes, Error>)
    ensures r.Success? && tags != [] ==> |r.value| > |content|
                                         && r.value[0] == TagOctet(tags[|tags| - 1])
    ensures r.Failure? ==> r.error == InvalidArgument
    ensures tags == [] ==> r == Success(content)
    decreases |tags|
  {
    if tags == [] then Success(content)
    else
      var inner :- Frame(tags[..|tags| - 1], content);
      Wrap(tags[|tags| - 1], inner)
  }

  /** The header-reading loop of Abstract.read: the tags are checked outermost
      first; every declared length must fit in what follows it, but only the
      innermost one decides where the contents end and the rest begins. */
  function ReadFrame(tags: seq<Tag>, buf: Bytes): (r: Result<(Bytes, Bytes), Error>)
    requires tags != []
    ensures r.Success? ==> |r.value.0| + |r.value.1| < |buf|
    ensures |buf| == 0 || buf[0] != TagOctet(tags[|tags| - 1]) ==> r == Failure(TagMismatch)
    ensures r.Failure? ==> IsAsn1Error(r.error)
    decreases |tags|
  {
    var t := tags[|tags| - 1];
    if |buf| == 0 || buf[0] != TagOctet(t) then Failure(TagMismatch)
    else
      var (len, after) :- ReadLength(buf[1..]);
      if |after| < len then Failure(Malformed)
      else if |tags| == 1 then
        assert after[..len] + after[len..] == after;
        Success((after[..len], after[len..]))
      else
        ReadFrame(tags[..|tags| - 1], after)
  }

  /** Past a matching outer tag, a length that cannot be read or that
      claims more than what follows makes the frame malformed. */
  lemma ReadFrameMalformed(tags: seq<Tag>, buf: Bytes)
    requires tags != [] && |buf| > 0 && buf[0] == TagOctet(tags[|tags| - 1])
    ensures ReadLength(buf[1..]).Failure? ==> ReadFrame(tags, buf) == Failure(Malformed)
    ensures ReadLength(buf[1..]).Success? && |ReadLength(buf[1..]).value.1| < ReadLength(buf[1..]).value.0 ==>
              ReadFrame(tags, buf) == Failure(Malformed)
  {
  }

  /** What Any._read and Choice._read learn from the first tag and length. */
  datatype Header = Header(tag: Tag, header: nat, total: nat)

  /** Tag.read, read_length and the length check, without taking anything:
      `header` counts the tag and length octets and `total` the whole TLV.
      Nothing left to read is a tag error; a TLV that is there but cannot be
      read is malformed. */
  function PeekTLV(buf: Bytes): (r: Result<Header, Error>)
    ensures r.Success? ==> 2 <= r.value.header <= r.value.total <= |buf|
    ensures r.Success? ==> TagOctet(r.value.tag) == buf[0]
    ensures r.Failure? ==> r.error == (if buf == [] then TagMismatch else Malformed)
  {
    var (t, afterTag) :- ReadTag(buf);
    var (len, afterLen) :- ReadLength(afterTag);
    if |afterLen| < len then Failure(Malformed)
    else Success(Header(t, |buf| - |afterLen|, |buf| - |afterLen| + len))
  }

  // Encoding.

  /** Abstract.encode: the contents, then one header per tag. An encoding
      starts with the identifier octet of the outermost tag; an untagged type
      writes its contents bare. */
  function Encode(s: Schema, v: Value): (r: Result<Bytes, Error>)
    ensures r.Success? && s.tags != [] ==> |r.value| > 0 && r.value[0] == TagOctet(s.tags[|s.tags| - 1])
    ensures s.tags == [] ==> r == EncodeContent(s, v)
    decreases s, 2
  {
    var content :- EncodeContent(s, v);
    Frame(s.tags, content)
  }

  /** The value constructor that belongs to each kind of schema. */
  predicate KindMatches(k: Kind, v: Value) {
    match k
    case BoolK => v.BoolV?
    case IntK => v.IntV?
    case StringK => v.StrV?
    case BitStringK => v.BitsV?
    case AnyK => v.AnyV?
    case ChoiceK(_) => v.ChoiceV?
    case SequenceOfK(_) => v.ListV?
    case SetOfK(_) => v.ListV?
    case SequenceK(_) => v.RecordV?
  }

  /** _encode_value of each kind. A value of the wrong shape for the schema is
      an InvalidArgument; the source's typed objects cannot produce one. */
  function EncodeContent(s: Schema, v: Value): (r: Result<Bytes, Error>)
    ensures !KindMatches(s.kind, v) ==> r == Failure(InvalidArgument)
    decreases s, 1
  {
    match s.kind
    case BoolK =>
      if v.BoolV? then Success(BoolOctets(v.b)) else Failure(InvalidArgument)
    case IntK =>
      if v.IntV? then IntOctets(v.i, true) else Failure(InvalidArgument)
    case StringK =>
      if v.StrV? then Success(v.octets) else Failure(InvalidArgument)
    case BitStringK =>
      if v.BitsV? then Success(BitStringOctets(v.bits)) else Failure(InvalidArgument)
    case AnyK =>
      if v.AnyV? then Success(v.raw) else Failure(InvalidArgument)
    case ChoiceK(alts) =>
      if !v.ChoiceV? then Failure(InvalidArgument)
      else if |v.chosen| == 0 then Failure(Malformed)
      else
        var found := FindAltByName(alts, v.chosen);
        if found.None? then Failure(InvalidArgument)
        else Encode(alts[found.value].schema, v.chosen[alts[found.value].name])
    case SequenceOfK(elem) =>
      if !v.ListV? then Failure(InvalidArgument)
      else
        var encs :- EncodeEach(elem, v.elems, 0);
        Success(Concat(encs))
    case SetOfK(elem) =>
      if !v.ListV? then Failure(InvalidArgument)
      else
        var encs :- EncodeEach(elem, v.elems, 0);
        Success(Concat(SortOctets(encs)))
    case SequenceK(comps) =>
      if !v.RecordV? || |v.fields| != |comps| then Failure(InvalidArgument)
      else EncodeFields(s, v.fields, 0)
  }

  /** [x.encode() for x in elements], from position i on. */
  function EncodeEach(elem: Schema, vs: seq<Value>, i: nat): (r: Result<seq<Bytes>, Error>)
    requires i <= |vs|
    ensures r.Success? ==> |r.value| == |vs| - i
    decreases elem, 3, |vs| - i
  {
    if i == |vs| then Success([])
    else
      var e :- Encode(elem, vs[i]);
      var tail :- EncodeEach(elem, vs, i + 1);
      Success([e] + tail)
  }

  /** Sequence._encode_value from component i on: a missing mandatory
      component is an error, a missing optional one is skipped, and a present
      one is omitted when its encoding equals the encoded default. */
  function EncodeFields(s: Schema, fields: seq<Option<Value>>, i: nat): (r: Result<Bytes, Error>)
    requires s.kind.SequenceK? && |fields| == |s.kind.comps| && i <= |fields|
    ensures r.Success? ==> forall j :: i <= j < |fields| ==> fields[j].Some? || s.kind.comps[j].optional
    decreases s, 0, |fields| - i
  {
    if i == |fields| then Success([])
    else
      var c := s.kind.comps[i];
      match fields[i]
      case None =>
        if !c.optional then Failure(Malformed) else EncodeFields(s, fields, i + 1)
      case Some(v) =>
        var e :- Encode(c.schema, v);
        var tail :- EncodeFields(s, fields, i + 1);
        Success((if c.encodedDefault == Some(e) then [] else e) + tail)
  }

  // Decoding.

  /** Abstract.decode: read, then refuse leftover bytes. It accepts exactly
      the buffers that one read uses up, with the value that read gives. */
  function Decode(s: Schema, buf: Bytes, strict: bool): (r: Result<Value, Error>)
    ensures r.Success? <==> Read(s, buf, strict).Success? && Read(s, buf, strict).value.1 == []
    ensures r.Success? ==> r.value == Read(s, buf, strict).value.0
    decreases s, 5
  {
    var (v, rest) :- Read(s, buf, strict);
    if rest != [] then Failure(Malformed) else Success(v)
  }

  /** Abstract.read: a tagged type reads its headers and decodes the innermost
      contents; an untagged Any takes the whole next TLV; an untagged Choice
      decodes the next TLV by its tag; any other untagged type has no _read. */
  function Read(s: Schema, buf: Bytes, strict: bool): (r: Result<(Value, Bytes), Error>)
    ensures r.Success? ==> |r.value.1| < |buf|
    decreases s, 3
  {
    if s.tags != [] then
      var (content, rest) :- ReadFrame(s.tags, buf);
      var v :- DecodeContent(s, content, strict);
      Success((v, rest))
    else if s.kind.AnyK? then
      var h :- PeekTLV(buf);
      Success((AnyV(buf[..h.total], None), buf[h.total..]))
    else if s.kind.ChoiceK? then
      var h :- PeekTLV(buf);
      var v :- DecodeReadahead(s, buf[..h.total], h.tag, buf[h.header..h.total], strict);
      Success((v, buf[h.total..]))
    else
      Failure(SchemaError)
  }

  /** _decode_value of each kind, given the contents. What it builds is an
      instance of the schema's own kind. */
  function DecodeContent(s: Schema, content: Bytes, strict: bool): (r: Result<Value, Error>)
    ensures r.Success? ==> KindMatches(s.kind, r.value)
    ensures s.kind.SequenceK? && ReadFields(s, content, strict, 0).Success?
            && ReadFields(s, content, strict, 0).value.1 != []
            ==> r == Failure(Malformed)
    decreases s, 2
  {
    match s.kind
    case BoolK =>
      var b :- DecodeBool(content, strict);
      Success(BoolV(b))
    case IntK =>
      var i :- OctetsToInt(content, true);
      Success(IntV(i))
    case StringK => Success(StrV(content))
    case BitStringK =>
      var bits :- DecodeBits(content);
      Success(BitsV(bits))
    case AnyK => Success(AnyV(content, None))
    case ChoiceK(_) =>
      var h :- PeekTLV(content);
      if h.total != |content| then Failure(Malformed)
      else DecodeReadahead(s, content, h.tag, content[h.header..], strict)
    case SequenceOfK(elem) =>
      var vs :- ReadElems(elem, content, strict);
      Success(ListV(vs))
    case SetOfK(elem) =>
      var vs :- ReadElems(elem, content, strict);
      Success(ListV(vs))
    case SequenceK(comps) =>
      var (fields, rest) :- ReadFields(s, content, strict, 0);
      if rest != [] then Failure(Malformed)
      else
        var resolved :- ResolveDefinedBy(s, fields, strict, 0);
        Success(RecordV(resolved))
  }

  /** Choice._decode_readahead_value: the alternative is the one whose outer
      tag is the tag on the wire. A single-tag alternative decodes the contents
      already in hand; any other reads the whole TLV again and must use it up. */
  function DecodeReadahead(s: Schema, whole: Bytes, t: Tag, inner: Bytes, strict: bool)
    : (r: Result<Value, Error>)
    requires s.kind.ChoiceK?
    ensures r.Success? ==> r.value.ChoiceV? && |r.value.chosen| == 1
    ensures s.kind.alts == [] ==> r == Failure(SchemaError)
    ensures s.kind.alts != [] && FindAltByTag(s.kind.alts, t).None? ==> r == Failure(TagMismatch)
    decreases s, 1
  {
    var alts := s.kind.alts;
    if alts == [] then Failure(SchemaError)
    else
      match FindAltByTag(alts, t)
      case None => Failure(TagMismatch)
      case Some(k) =>
        var alt := alts[k];
        var v :- DecodeAlternative(s, k, whole, inner, strict);
        Success(ChoiceV(map[alt.name := v]))
  }

  /** The decoding of the chosen alternative, passing strictness through
      (see the findings for the source's fast path, which does not). */
  function DecodeAlternative(s: Schema, k: nat, whole: Bytes, inner: Bytes, strict: bool)
    : (r: Result<Value, Error>)
    requires s.kind.ChoiceK? && k < |s.kind.alts|
    ensures |s.kind.alts[k].schema.tags| != 1 ==> r == Decode(s.kind.alts[k].schema, whole, strict)
    decreases s, 0
  {
    var alt := s.kind.alts[k];
    if |alt.schema.tags| == 1 then DecodeContent(alt.schema, inner, strict)
    else
      var (v, rest) :- Read(alt.schema, whole, strict);
      if rest != [] then Failure(Malformed) else Success(v)
  }

  /** The loop of SequenceOf/SetOf._decode_value: read elements until the
      contents are used up. */
  function ReadElems(elem: Schema, buf: Bytes, strict: bool): (r: Result<seq<Value>, Error>)
    ensures r.Success? ==> |r.value| <= |buf|
    decreases elem, 4, |buf|
  {
    if buf == [] then Success([])
    else
      var (v, rest) :- Read(elem, buf, strict);
      var tail :- ReadElems(elem, rest, strict);
      Success([v] + tail)
  }

  /** The first pass of Sequence._decode_value from component i on. A tag
      error from an optional (or defaulted) component stores its default and
      consumes nothing; any other error ends the decoding. */
  function ReadFields(s: Schema, buf: Bytes, strict: bool, i: nat)
    : (r: Result<(seq<Option<Value>>, Bytes), Error>)
    requires s.kind.SequenceK? && i <= |s.kind.comps|
    ensures r.Success? ==> |r.value.0| == |s.kind.comps| - i
    ensures r.Success? ==> |r.value.1| <= |buf|
    decreases s, 0, |s.kind.comps| - i
  {
    var comps := s.kind.comps;
    if i == |comps| then Success(([], buf))
    else
      var c := comps[i];
      var read := Read(c.schema, buf, strict);
      if read.Failure? && read.error == TagMismatch && c.optional then
        var (tail, rest) :- ReadFields(s, buf, strict, i + 1);
        Success(([c.default] + tail, rest))
      else if read.Failure? then
        Failure(read.error)
      else
        var (v, after) := read.value;
        var (tail, rest) :- ReadFields(s, after, strict, i + 1);
        Success(([Some(v)] + tail, rest))
  }

  /** The second pass of Sequence._decode_value from component i on: an Any
      component with defined_by is decoded against the type its selector's
      value finds in the lookup. A selector that names no component (the
      KeyError of ret[defined_by]), or a found type for a component that holds
      something other than an Any (an AttributeError on decode_inner), is a
      schema error: both come from a misdeclared type. An optional Any that
      the first pass found absent has nothing to decode and is left absent
      (the source calls decode_inner on None here; see
      Findings.ResolveDefinedByAsWritten). A failed inner decoding is ignored
      in lenient mode if it is an ASN.1 error, and ends the decoding
      otherwise. */
  function ResolveDefinedBy(s: Schema, fields: seq<Option<Value>>, strict: bool, i: nat)
    : (r: Result<seq<Option<Value>>, Error>)
    requires s.kind.SequenceK? && |fields| == |s.kind.comps| && i <= |fields|
    ensures r.Success? ==> |r.value| == |fields|
    decreases s, 0, |fields| - i
  {
    var comps := s.kind.comps;
    if i == |fields| then Success(fields)
    else
      var c := comps[i];
      if c.definedBy.None? then ResolveDefinedBy(s, fields, strict, i + 1)
      else
        var db := c.definedBy.value;
        match IndexOfName(comps, db.selector)
        case None => Failure(SchemaError)
        case Some(sel) =>
          match FindLookup(db.lookup, fields[sel])
          case None => ResolveDefinedBy(s, fields, strict, i + 1)
          case Some(k) =>
            if fields[i].None? then ResolveDefinedBy(s, fields, strict, i + 1)
            else if !fields[i].value.AnyV? then Failure(SchemaError)
            else
              var raw := fields[i].value.raw;
              var inner := Decode(db.lookup[k].schema, raw, strict);
              if inner.Success? then
                ResolveDefinedBy(s, fields[i := Some(AnyV(raw, Some(inner.value)))], strict, i + 1)
              else if !strict && IsAsn1Error(inner.error) then
                ResolveDefinedBy(s, fields, strict, i + 1)
              else
                Failure(inner.error)
  }
}
