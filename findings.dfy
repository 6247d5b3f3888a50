/** Three places where the source, as written, does not do what it evidently
    means to. Each is modelled as written, with an input that exposes it; the
    rest of the model uses the corrected definitions Integers.EncodeLength,
    Codec.DecodeAlternative and Codec.ResolveDefinedBy. */
module Findings {
  import opened Wrappers
  import opened Errors
  import opened Integers
  import opened Tags
  import opened Schemas
  import opened Scalars
  import opened Codec
  import opened Properties

  // encode_length: the long form has room for at most 127 length octets.

  /** encode_length as written: the initial octet is 0x80 | k for k length
      octets, and chr() refuses a value above 255. For 128 <= k <= 255 the OR
      leaves k unchanged, so the count no longer fits in the low seven bits. */
  function EncodeLengthAsWritten(n: nat): (r: Result<Bytes, Error>)
    ensures n <= 127 ==> r == Success([n])
    ensures n > 127 && r.Success? ==>
      var u := IntOctets(n, false).value;
      r.value == [if |u| >= 128 then |u| else 128 + |u|] + u
  {
    if n <= 127 then Success([n])
    else
      var u := IntOctets(n, false).value;
      var k := |u|;
      if k >= 256 then Failure(InvalidArgument)
      else Success([if k >= 128 then k else 128 + k] + u)
  }

  /** Wherever the corrected encoder gives a header, the source gives the same. */
  lemma EncodeLengthAgrees(n: nat)
    requires EncodeLength(n).Success?
    ensures EncodeLengthAsWritten(n) == EncodeLength(n)
  {
  }

  function Pow256(j: nat): (r: nat)
    ensures r >= 1
  {
    if j == 0 then 1 else 256 * Pow256(j - 1)
  }

  /** 256^j is written as a 1 followed by j zero octets. */
  lemma {:induction false} DigitsPow256(j: nat)
    ensures |Digits(Pow256(j))| == j + 1 && Digits(Pow256(j))[0] == 1
  {
    if j == 0 {
      assert Digits(1) == Digits(0) + [1];
    } else {
      var p := Pow256(j - 1);
      DigitsPow256(j - 1);
      assert Pow256(j) / 256 == p && Pow256(j) % 256 == 0;
      assert Digits(Pow256(j)) == Digits(p) + [0];
    }
  }

  /** A length of 256^j for 127 <= j < 255 needs j + 1 length octets, one more
      than seven bits can count: the source writes j + 1 itself as the initial
      octet, while the corrected encoder refuses the length. */
  lemma {:induction false} LongLengthHeader(j: nat)
    requires 127 <= j < 255
    ensures var h := EncodeLengthAsWritten(Pow256(j));
            h.Success? && |h.value| == j + 2 && h.value[0] == j + 1
    ensures EncodeLength(Pow256(j)) == Failure(InvalidArgument)
  {
    DigitsPow256(j);
    var n := Pow256(j);
    assert n >= 256 by {
      assert n == 256 * Pow256(j - 1);
    }
    assert IntOctets(n, false) == Success(Digits(n));
  }

  /** For 256^127 that initial octet is 0x80, which read_length takes for "no
      length octets" and rejects: the source writes a length it cannot read. */
  lemma LongLengthUnreadable(j: nat)
    requires j == 127
    ensures var h := EncodeLengthAsWritten(Pow256(j));
            h.Success? && h.value[0] == 0x80 && ReadLength(h.value) == Failure(Malformed)
    ensures EncodeLength(Pow256(j)) == Failure(InvalidArgument)
  {
    LongLengthHeader(j);
  }

  // Choice._decode_readahead_value: the single-tag shortcut.

  /** Choice._decode_readahead_value as written: the shortcut for a single-tag
      alternative builds it from its contents with the default strictness,
      which is strict, whatever mode the Choice is decoded in. */
  function DecodeAlternativeAsWritten(s: Schema, k: nat, whole: Bytes, inner: Bytes, strict: bool)
    : (r: Result<Value, Error>)
    requires s.kind.ChoiceK? && k < |s.kind.alts|
    ensures |s.kind.alts[k].schema.tags| != 1 ==> r == DecodeAlternative(s, k, whole, inner, strict)
  {
    var alt := s.kind.alts[k];
    if |alt.schema.tags| == 1 then DecodeContent(alt.schema, inner, true)
    else DecodeAlternative(s, k, whole, inner, strict)
  }

  /** The same lookup as Codec.DecodeReadahead around the as-written shortcut. */
  function DecodeReadaheadAsWritten(s: Schema, whole: Bytes, t: Tag, inner: Bytes, strict: bool)
    : (r: Result<Value, Error>)
    requires s.kind.ChoiceK?
    ensures strict ==> r == DecodeReadahead(s, whole, t, inner, strict)
  {
    var alts := s.kind.alts;
    if alts == [] then Failure(SchemaError)
    else
      match FindAltByTag(alts, t)
      case None => Failure(TagMismatch)
      case Some(k) =>
        var v :- DecodeAlternativeAsWritten(s, k, whole, inner, strict);
        Success(ChoiceV(map[alts[k].name := v]))
  }

  /** CHOICE { flag BOOLEAN }: the schema of the witness in LenientChoiceShortcut. */
  const FlagChoice: Schema := Schema([], ChoiceK([Alternative("flag", BooleanType)]))

  /** The wire form 01 01 01: a Boolean whose single contents octet is 0x01,
      the input of LenientChoiceShortcut. */
  const FlagWire: Bytes := [0x01, 0x01, 0x01]

  /** Lenient decoding accepts the BER Boolean 01 01 01 on its own (one half
      of LenientChoiceShortcut). */
  lemma FlagWireBoolean()
    ensures Decode(BooleanType, FlagWire, false) == Success(BoolV(true))
  {
    var wire := FlagWire;
    assert TagOctet(Tag(Universal, false, 1)) == 0x01;
    assert wire[1..] == [0x01, 0x01] && [0x01, 0x01][1..] == [0x01];
    assert [0x01][..1] == [0x01] && [0x01][1..] == [];
    assert ReadFrame(BooleanType.tags, wire) == Success(([0x01], []));
  }

  /** The corrected Choice decodes 01 01 01 leniently to its Boolean
      alternative (the corrected half of LenientChoiceShortcut). */
  lemma FlagWireChoice()
    ensures Decode(FlagChoice, FlagWire, false) == Success(ChoiceV(map["flag" := BoolV(true)]))
  {
    var wire := FlagWire;
    var t := Tag(Universal, false, 1);
    assert TagOctet(t) == 0x01;
    assert wire[1..] == [0x01, 0x01] && [0x01, 0x01][1..] == [0x01];
    assert ReadTag(wire) == Success((t, wire[1..]));
    var h := PeekTLV(wire).value;
    assert h == Header(t, 2, 3);
    assert wire[..3] == wire && wire[2..3] == [0x01] && wire[3..] == [];
    assert FindAltByTag(FlagChoice.kind.alts, t) == Some(0);
    FlagWireBoolean();
    assert DecodeContent(BooleanType, [0x01], false) == Success(BoolV(true));
    assert DecodeAlternative(FlagChoice, 0, wire, [0x01], false) == Success(BoolV(true));
    assert DecodeReadahead(FlagChoice, wire, t, [0x01], false) == Success(ChoiceV(map["flag" := BoolV(true)]));
    assert Read(FlagChoice, wire, false) == Success((ChoiceV(map["flag" := BoolV(true)]), []));
  }

  /** A BER Boolean with contents 0x01: lenient decoding accepts it on its own,
      and the corrected Choice accepts it too, but the source's shortcut
      decodes it strictly and fails. */
  lemma LenientChoiceShortcut()
    ensures Decode(BooleanType, FlagWire, false) == Success(BoolV(true))
    ensures Decode(FlagChoice, FlagWire, false) == Success(ChoiceV(map["flag" := BoolV(true)]))
    ensures DecodeReadaheadAsWritten(FlagChoice, FlagWire, Tag(Universal, false, 1), [0x01], false)
            == Failure(Malformed)
  {
    FlagWireBoolean();
    FlagWireChoice();
    assert FindAltByTag(FlagChoice.kind.alts, Tag(Universal, false, 1)) == Some(0);
  }

  // The defined-by pass on an absent optional Any.

  /** The second pass of Sequence._decode_value as written: once the
      selector's value is found in the lookup it calls decode_inner on the
      component whatever the first pass stored there, so an optional Any that
      was absent (None) raises an AttributeError, which is not an ASN.1 error
      and is not swallowed even in lenient mode. */
  function ResolveDefinedByAsWritten(s: Schema, fields: seq<Option<Value>>, strict: bool, i: nat)
    : (r: Result<seq<Option<Value>>, Error>)
    requires s.kind.SequenceK? && |fields| == |s.kind.comps| && i <= |fields|
    ensures r.Success? ==> r == ResolveDefinedBy(s, fields, strict, i)
    ensures r.Failure? && ResolveDefinedBy(s, fields, strict, i).Success? ==> r.error == SchemaError
    decreases |fields| - i
  {
    var comps := s.kind.comps;
    if i == |fields| then Success(fields)
    else
      var c := comps[i];
      if c.definedBy.None? then ResolveDefinedByAsWritten(s, fields, strict, i + 1)
      else
        var db := c.definedBy.value;
        match IndexOfName(comps, db.selector)
        case None => Failure(SchemaError)
        case Some(sel) =>
          match FindLookup(db.lookup, fields[sel])
          case None => ResolveDefinedByAsWritten(s, fields, strict, i + 1)
          case Some(k) =>
            if fields[i].None? || !fields[i].value.AnyV? then Failure(SchemaError)
            else
              var raw := fields[i].value.raw;
              var inner := Decode(db.lookup[k].schema, raw, strict);
              if inner.Success? then
                ResolveDefinedByAsWritten(s, fields[i := Some(AnyV(raw, Some(inner.value)))], strict, i + 1)
              else if !strict && IsAsn1Error(inner.error) then
                ResolveDefinedByAsWritten(s, fields, strict, i + 1)
              else
                Failure(inner.error)
  }

  /** SEQUENCE { algorithm INTEGER, parameters ANY DEFINED BY algorithm
      OPTIONAL }, where algorithm 5 takes a Boolean parameter. */
  const ParamsSchema: Schema := SequenceType([
    Component("algorithm", IntegerType, false, None, None, None),
    Component("parameters", AnyType, true, None, None,
              Some(DefinedBy("algorithm", [LookupEntry(IntV(5), BooleanType)])))])

  /** 30 03 02 01 05: algorithm 5 with its optional parameters left out. The
      first pass reads the algorithm and finds the parameters absent; the
      corrected decoding gives that record in both modes, while the second
      pass as written fails on it with a schema error (None.decode_inner). */
  lemma AbsentDefinedByParameters(strict: bool)
    ensures ReadFields(ParamsSchema, [0x02, 0x01, 0x05], strict, 0) == Success(([Some(IntV(5)), None], []))
    ensures Decode(ParamsSchema, [0x30, 0x03, 0x02, 0x01, 0x05], strict) == Success(RecordV([Some(IntV(5)), None]))
    ensures ResolveDefinedByAsWritten(ParamsSchema, [Some(IntV(5)), None], strict, 0) == Failure(SchemaError)
  {
    FirstPassIntegerThenAbsent(ParamsSchema, strict);
    ParamsSecondPass(strict);
    DecodeIntegerThenAbsent(ParamsSchema, strict);
  }

  /** Both second passes over the fields of AbsentDefinedByParameters: the
      selector's value 5 is in the lookup and the parameters are absent. */
  lemma ParamsSecondPass(strict: bool)
    ensures ResolveDefinedBy(ParamsSchema, [Some(IntV(5)), None], strict, 0) == Success([Some(IntV(5)), None])
    ensures ResolveDefinedByAsWritten(ParamsSchema, [Some(IntV(5)), None], strict, 0) == Failure(SchemaError)
  {
    var fields: seq<Option<Value>> := [Some(IntV(5)), None];
    var comps := ParamsSchema.kind.comps;
    assert IndexOfName(comps, "algorithm") == Some(0);
    assert FindLookup(comps[1].definedBy.value.lookup, fields[0]) == Some(0);
    assert ResolveDefinedBy(ParamsSchema, fields, strict, 2) == Success(fields);
    assert ResolveDefinedBy(ParamsSchema, fields, strict, 1) == Success(fields);
    assert ResolveDefinedByAsWritten(ParamsSchema, fields, strict, 1) == Failure(SchemaError);
  }
}
