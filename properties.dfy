/** Properties of single operations of the codec that the round trip does not
    already state: SetOf encoding ignores the order of the elements, a Choice
    encodes as its set alternative, and the defined-by pass of Sequence
    decoding only ever fills in decoded parts, failing in lenient mode only on
    a schema error. */
module Properties {
  import opened Wrappers
  import opened Errors
  import opened Integers
  import opened Tags
  import opened Schemas
  import opened OctetOrder
  import opened Codec
  import opened RoundTrip
  import opened Mapping

  // SetOf.

  /** [x.encode() for x in elements] succeeds when every element encodes, and
      holds their encodings in order. */
  lemma {:induction false} EncodeEachElements(elem: Schema, vs: seq<Value>, i: nat)
    requires i <= |vs|
    ensures EncodeEach(elem, vs, i).Success? <==> forall m :: i <= m < |vs| ==> Encode(elem, vs[m]).Success?
    ensures EncodeEach(elem, vs, i).Success? ==>
              forall m :: i <= m < |vs| ==> EncodeEach(elem, vs, i).value[m - i] == Encode(elem, vs[m]).value
    decreases |vs| - i
  {
    if i < |vs| {
      EncodeEachElements(elem, vs, i + 1);
      var r := EncodeEach(elem, vs, i);
      var head := Encode(elem, vs[i]);
      var rest := EncodeEach(elem, vs, i + 1);
      if head.Success? && rest.Success? {
        assert r == Success([head.value] + rest.value);
        forall m | i <= m < |vs|
          ensures r.value[m - i] == Encode(elem, vs[m]).value
        {
          if m > i {
            assert r.value[m - i] == rest.value[m - (i + 1)];
          }
        }
      } else if head.Success? {
        assert r.Failure?;
        var m :| i + 1 <= m < |vs| && Encode(elem, vs[m]).Failure?;
      } else {
        assert r.Failure?;
      }
    }
  }

  function EncodedOrEmpty(r: Result<Bytes, Error>): Bytes {
    if r.Success? then r.value else []
  }

  /** x.encode() for elements of type elem. */
  function Encoder(elem: Schema): Value -> Result<Bytes, Error> {
    v => Encode(elem, v)
  }

  /** EncodeEach as a map over the elements: it succeeds when every result
      does, with the results' bytes in order. */
  lemma EncodeEachAsMap(elem: Schema, vs: seq<Value>) returns (rs: seq<Result<Bytes, Error>>)
    ensures rs == MapSeq(Encoder(elem), vs)
    ensures EncodeEach(elem, vs, 0).Success? <==> forall i :: 0 <= i < |rs| ==> rs[i].Success?
    ensures EncodeEach(elem, vs, 0).Success? ==> EncodeEach(elem, vs, 0).value == MapSeq(EncodedOrEmpty, rs)
  {
    rs := MapSeq(Encoder(elem), vs);
    MapSeqAt(Encoder(elem), vs);
    forall m | 0 <= m < |vs| ensures rs[m] == Encode(elem, vs[m]) {
      assert rs[m] == Encoder(elem)(vs[m]);
    }
    EncodeEachFromResults(elem, vs, rs);
  }

  /** EncodeEach in terms of the elements' own encoding results. */
  lemma EncodeEachFromResults(elem: Schema, vs: seq<Value>, rs: seq<Result<Bytes, Error>>)
    requires |rs| == |vs| && forall m :: 0 <= m < |vs| ==> rs[m] == Encode(elem, vs[m])
    ensures EncodeEach(elem, vs, 0).Success? <==> forall i :: 0 <= i < |rs| ==> rs[i].Success?
    ensures EncodeEach(elem, vs, 0).Success? ==> EncodeEach(elem, vs, 0).value == MapSeq(EncodedOrEmpty, rs)
  {
    EncodeEachElements(elem, vs, 0);
    MapSeqAt(EncodedOrEmpty, rs);
  }

  lemma AllSucceed(rv: seq<Result<Bytes, Error>>, rw: seq<Result<Bytes, Error>>)
    requires multiset(rv) == multiset(rw)
    ensures (forall i :: 0 <= i < |rv| ==> rv[i].Success?) <==> (forall i :: 0 <= i < |rw| ==> rw[i].Success?)
  {
    if forall i :: 0 <= i < |rv| ==> rv[i].Success? {
      forall i | 0 <= i < |rw| ensures rw[i].Success? {
        assert rw[i] in multiset(rv);
      }
    }
    if forall i :: 0 <= i < |rw| ==> rw[i].Success? {
      forall i | 0 <= i < |rv| ensures rv[i].Success? {
        assert rv[i] in multiset(rw);
      }
    }
  }

  /** The element encodings of two arrangements of the same elements are two
      arrangements of the same encodings. */
  lemma EncodeEachPermutation(elem: Schema, vs: seq<Value>, ws: seq<Value>)
    requires multiset(vs) == multiset(ws)
    ensures EncodeEach(elem, vs, 0).Success? <==> EncodeEach(elem, ws, 0).Success?
    ensures EncodeEach(elem, vs, 0).Success? ==>
              multiset(EncodeEach(elem, vs, 0).value) == multiset(EncodeEach(elem, ws, 0).value)
  {
    var rv := EncodeEachAsMap(elem, vs);
    var rw := EncodeEachAsMap(elem, ws);
    MapPermutation(Encoder(elem), vs, ws);
    AllSucceed(rv, rw);
    MapPermutation(EncodedOrEmpty, rv, rw);
  }

  /** SetOf's encoding does not depend on the order of its elements: any
      rearrangement of the same elements encodes to the same bytes. */
  lemma SetOfOrderIrrelevant(s: Schema, vs: seq<Value>, ws: seq<Value>)
    requires s.kind.SetOfK? && multiset(vs) == multiset(ws)
    ensures EncodeContent(s, ListV(vs)).Success? <==> EncodeContent(s, ListV(ws)).Success?
    ensures EncodeContent(s, ListV(vs)).Success? ==> EncodeContent(s, ListV(vs)) == EncodeContent(s, ListV(ws))
  {
    var elem := s.kind.elem;
    EncodeEachPermutation(elem, vs, ws);
    if EncodeEach(elem, vs, 0).Success? {
      SortPermutationInvariant(EncodeEach(elem, vs, 0).value, EncodeEach(elem, ws, 0).value);
    }
  }

  /** The position of an element that occurs in a sequence. */
  ghost function PositionOf(xs: seq<Bytes>, x: Bytes): (i: nat)
    requires x in xs
    ensures i < |xs| && xs[i] == x
  {
    if xs[0] == x then 0 else 1 + PositionOf(xs[1..], x)
  }

  /** Elements that encode one by one to given encodings encode, from
      position i on, to those encodings. */
  lemma {:induction false} EncodeEachPointwise(elem: Schema, us: seq<Value>, bs: seq<Bytes>, i: nat)
    requires i <= |us| == |bs|
    requires forall j :: i <= j < |us| ==> Encode(elem, us[j]) == Success(bs[j])
    ensures EncodeEach(elem, us, i) == Success(bs[i..])
    decreases |us| - i
  {
    if i < |us| {
      EncodeEachPointwise(elem, us, bs, i + 1);
      assert Encode(elem, us[i]) == Success(bs[i]);
      assert EncodeEach(elem, us, i) == Success([bs[i]] + bs[i + 1..]);
      assert bs[i..] == [bs[i]] + bs[i + 1..];
    }
  }

  /** The elements rearranged so that their encodings come in the order of
      the sorted encodings. */
  lemma SortedArrangement(elem: Schema, vs: seq<Value>) returns (us: seq<Value>)
    requires EncodeEach(elem, vs, 0).Success?
    ensures |us| == |vs|
    ensures forall j :: 0 <= j < |us| ==> us[j] in vs
    ensures EncodeEach(elem, us, 0) == Success(SortOctets(EncodeEach(elem, vs, 0).value))
  {
    var encs := EncodeEach(elem, vs, 0).value;
    var sorted := SortOctets(encs);
    assert |sorted| == |encs| by {
      assert |multiset(sorted)| == |multiset(encs)|;
    }
    us := seq(|sorted|, j requires 0 <= j < |sorted| =>
      assert sorted[j] in multiset(encs);
      vs[PositionOf(encs, sorted[j])]);
    EncodeEachElements(elem, vs, 0);
    forall j | 0 <= j < |us|
      ensures us[j] in vs && Encode(elem, us[j]) == Success(sorted[j])
    {
      assert sorted[j] in multiset(encs);
      var i := PositionOf(encs, sorted[j]);
      assert us[j] == vs[i];
    }
    EncodeEachPointwise(elem, us, sorted, 0);
    assert sorted[0..] == sorted;
  }

  /** A SetOf value whose elements are not in encoding order still encodes,
      and decoding that encoding gives back its elements rearranged so that
      their encodings ascend: each decoded element is, by value, one of the
      elements given, and the decoded elements encode to the sorted element
      encodings. The source's own equality on SetOf is order-dependent, so
      such a value and the decoded one compare unequal. */
  lemma SetOfDecodesSorted(s: Schema, vs: seq<Value>, strict: bool)
    requires s.kind.SetOfK? && WellFormed(s)
    requires forall m :: 0 <= m < |vs| ==> Conforms(s.kind.elem, vs[m])
    requires EncodeContent(s, ListV(vs)).Success?
    ensures DecodeContent(s, EncodeContent(s, ListV(vs)).value, strict).Success?
    ensures exists us: seq<Value> ::
              && |us| == |vs|
              && (forall j :: 0 <= j < |us| ==> us[j] in vs)
              && EncodeEach(s.kind.elem, us, 0) == Success(SortOctets(EncodeEach(s.kind.elem, vs, 0).value))
              && Undecoded(DecodeContent(s, EncodeContent(s, ListV(vs)).value, strict).value)
                 == Undecoded(ListV(us))
  {
    var elem := s.kind.elem;
    var c := EncodeContent(s, ListV(vs)).value;
    var sorted := SortOctets(EncodeEach(elem, vs, 0).value);
    var us := SortedArrangement(elem, vs);
    SortedUnique(SortOctets(sorted), sorted);
    assert EncodeContent(s, ListV(us)) == Success(c);
    assert Conforms(s, ListV(us)) by {
      forall j | 0 <= j < |us| ensures Conforms(elem, us[j]) {
        var m :| 0 <= m < |vs| && vs[m] == us[j];
      }
    }
    ContentRoundTrip(s, ListV(us), c, strict);
  }

  // Choice.

  /** An empty Choice cannot be encoded; a Choice with one alternative set
      encodes exactly as that alternative does. */
  lemma ChoiceEncoding(s: Schema, k: nat, v: Value)
    requires s.kind.ChoiceK? && k < |s.kind.alts|
    requires forall j :: 0 <= j < k ==> s.kind.alts[j].name != s.kind.alts[k].name
    ensures EncodeContent(s, ChoiceV(map[])) == Failure(Malformed)
    ensures EncodeContent(s, ChoiceV(map[s.kind.alts[k].name := v])) == Encode(s.kind.alts[k].schema, v)
  {
    var alts := s.kind.alts;
    var chosen := map[alts[k].name := v];
    assert |chosen| == 1;
    assert FindAltByName(alts, chosen) == Some(k) by {
      var found := FindAltByName(alts, chosen);
      assert found.Some? by {
        assert alts[k].name in chosen;
      }
    }
  }

  /** An untagged Choice on one whole TLV decodes exactly as the alternative
      its outer tag selects, in the same mode, strict or lenient. */
  lemma ChoiceDecodesAsAlternative(s: Schema, k: nat, buf: Bytes, strict: bool)
    requires s.kind.ChoiceK? && s.tags == [] && k < |s.kind.alts|
    requires PeekTLV(buf).Success? && PeekTLV(buf).value.total == |buf|
    requires FindAltByTag(s.kind.alts, PeekTLV(buf).value.tag) == Some(k)
    ensures var alt := s.kind.alts[k];
            && (Decode(s, buf, strict).Success? <==> Decode(alt.schema, buf, strict).Success?)
            && (Decode(s, buf, strict).Success? ==>
                  Decode(s, buf, strict).value == ChoiceV(map[alt.name := Decode(alt.schema, buf, strict).value]))
  {
    var alt := s.kind.alts[k];
    var h := PeekTLV(buf).value;
    assert buf[..h.total] == buf && buf[h.total..] == [];
    var d := DecodeAlternative(s, k, buf, buf[h.header..], strict);
    if |alt.schema.tags| == 1 {
      var (t, afterTag) := ReadTag(buf).value;
      var (len, after) := ReadLength(afterTag).value;
      assert OuterTag(alt.schema) == h.tag == t;
      assert alt.schema.tags[0] == t;
      assert after == buf[h.header..] && |after| == len;
      assert after[..len] == after && after[len..] == [];
      assert ReadFrame(alt.schema.tags, buf) == Success((after, []));
      assert d == DecodeContent(alt.schema, after, strict);
    }
    assert d == Decode(alt.schema, buf, strict);
    assert DecodeReadahead(s, buf, h.tag, buf[h.header..], strict)
        == (if d.Success? then Success(ChoiceV(map[alt.name := d.value])) else Failure(d.error));
    assert Read(s, buf, strict)
        == (if d.Success? then Success((ChoiceV(map[alt.name := d.value]), [])) else Failure(d.error));
  }

  // The defined-by pass of Sequence decoding.

  /** Bytes left in a Sequence's contents after the first pass has read its
      last component make the decoding malformed, before any defined-by
      decoding is tried. */
  lemma SequenceLeftoverMalformed(s: Schema, c: Bytes, strict: bool)
    requires s.kind.SequenceK? && ReadFields(s, c, strict, 0).Success?
    requires ReadFields(s, c, strict, 0).value.1 != []
    ensures DecodeContent(s, c, strict) == Failure(Malformed)
  {
  }

  /** In lenient mode the second pass fails only with errors that are not
      ASN.1 errors (a schema error): decoding errors of defined-by fields are
      swallowed. */
  lemma {:induction false} LenientSecondPass(s: Schema, fields: seq<Option<Value>>, i: nat)
    requires s.kind.SequenceK? && |fields| == |s.kind.comps| && i <= |fields|
    ensures ResolveDefinedBy(s, fields, false, i).Failure? ==>
              !IsAsn1Error(ResolveDefinedBy(s, fields, false, i).error)
    decreases |fields| - i
  {
    if i < |fields| {
      LenientSecondPass(s, fields, i + 1);
      var c := s.kind.comps[i];
      if c.definedBy.Some? {
        var sel := IndexOfName(s.kind.comps, c.definedBy.value.selector);
        if sel.Some? {
          var k := FindLookup(c.definedBy.value.lookup, fields[sel.value]);
          if k.Some? && fields[i].Some? && fields[i].value.AnyV? {
            var raw := fields[i].value.raw;
            var inner := Decode(c.definedBy.value.lookup[k.value].schema, raw, false);
            if inner.Success? {
              LenientSecondPass(s, fields[i := Some(AnyV(raw, Some(inner.value)))], i + 1);
            }
          }
        }
      }
    }
  }

  /** The second pass only adds decoded parts to Any components: compared as
      the source compares values, every component is what the first pass
      read. */
  lemma {:induction false} SecondPassKeepsValues(s: Schema, fields: seq<Option<Value>>, strict: bool, i: nat)
    requires s.kind.SequenceK? && |fields| == |s.kind.comps| && i <= |fields|
    requires ResolveDefinedBy(s, fields, strict, i).Success?
    ensures forall m :: 0 <= m < |fields| ==>
              UndecodedField(ResolveDefinedBy(s, fields, strict, i).value[m]) == UndecodedField(fields[m])
    decreases |fields| - i
  {
    if i < |fields| {
      var next := ResolveStep(s, fields, strict, i);
      SecondPassKeepsValues(s, next, strict, i + 1);
    }
  }

  /** Positions before i are left as they are by the pass from i on. */
  lemma {:induction false} SecondPassKeepsPrefix(s: Schema, fields: seq<Option<Value>>, strict: bool, i: nat)
    requires s.kind.SequenceK? && |fields| == |s.kind.comps| && i <= |fields|
    requires ResolveDefinedBy(s, fields, strict, i).Success?
    ensures ResolveDefinedBy(s, fields, strict, i).value[..i] == fields[..i]
    decreases |fields| - i
  {
    if i < |fields| {
      var next := ResolveStep(s, fields, strict, i);
      SecondPassKeepsPrefix(s, next, strict, i + 1);
      var r := ResolveDefinedBy(s, next, strict, i + 1).value;
      assert r[..i] == r[..i + 1][..i];
      assert next[..i] == next[..i + 1][..i];
    }
  }

  /** One step of the second pass: it continues at the next component with
      only component i changed, and that only in its decoded part; in strict
      mode a present Any whose lookup entry is found has been decoded. */
  lemma ResolveStep(s: Schema, fields: seq<Option<Value>>, strict: bool, i: nat)
    returns (next: seq<Option<Value>>)
    requires s.kind.SequenceK? && |fields| == |s.kind.comps| && i < |fields|
    requires ResolveDefinedBy(s, fields, strict, i).Success?
    ensures |next| == |fields| && next[..i] == fields[..i]
    ensures forall m :: 0 <= m < |fields| && m != i ==> next[m] == fields[m]
    ensures UndecodedField(next[i]) == UndecodedField(fields[i])
    ensures strict && DefinedByFound(s, fields, i) && fields[i].Some? ==>
              next[i].value.AnyV? && next[i].value.decoded.Some?
    ensures ResolveDefinedBy(s, fields, strict, i) == ResolveDefinedBy(s, next, strict, i + 1)
  {
    next := fields;
    var c := s.kind.comps[i];
    if c.definedBy.Some? {
      var sel := IndexOfName(s.kind.comps, c.definedBy.value.selector).value;
      var k := FindLookup(c.definedBy.value.lookup, fields[sel]);
      if k.Some? && fields[i].Some? {
        var raw := fields[i].value.raw;
        var inner := Decode(c.definedBy.value.lookup[k.value].schema, raw, strict);
        if inner.Success? {
          next := fields[i := Some(AnyV(raw, Some(inner.value)))];
        }
      }
    }
  }

  /** Component m is a defined-by Any whose selector names a component whose
      value is found in the lookup. */
  predicate DefinedByFound(s: Schema, r: seq<Option<Value>>, m: nat)
    requires s.kind.SequenceK? && |r| == |s.kind.comps| && m < |r|
  {
    var c := s.kind.comps[m];
    c.definedBy.Some? && IndexOfName(s.kind.comps, c.definedBy.value.selector).Some? &&
    FindLookup(c.definedBy.value.lookup, r[IndexOfName(s.kind.comps, c.definedBy.value.selector).value]).Some?
  }

  /** If component m is a present defined-by Any whose selector value is found
      in its lookup, it has been decoded. */
  predicate ResolvedAt(s: Schema, r: seq<Option<Value>>, m: nat)
    requires s.kind.SequenceK? && |r| == |s.kind.comps| && m < |r|
  {
    DefinedByFound(s, r, m) && r[m].Some? ==> r[m].value.AnyV? && r[m].value.decoded.Some?
  }

  /** In strict mode a second pass that succeeds has decoded every present
      defined-by Any whose selector's value is in the lookup: no decoding
      error is swallowed. */
  lemma {:induction false} StrictSecondPass(s: Schema, fields: seq<Option<Value>>, i: nat)
    requires s.kind.SequenceK? && |fields| == |s.kind.comps| && i <= |fields|
    requires ResolveDefinedBy(s, fields, true, i).Success?
    ensures forall m :: i <= m < |fields| ==> ResolvedAt(s, ResolveDefinedBy(s, fields, true, i).value, m)
    decreases |fields| - i
  {
    if i < |fields| {
      var r := ResolveDefinedBy(s, fields, true, i).value;
      var next := ResolveStep(s, fields, true, i);
      StrictSecondPass(s, next, i + 1);
      SecondPassKeepsPrefix(s, next, true, i + 1);
      assert r[i] == r[..i + 1][i];
      var c := s.kind.comps[i];
      if c.definedBy.Some? && IndexOfName(s.kind.comps, c.definedBy.value.selector).Some? {
        var sel := IndexOfName(s.kind.comps, c.definedBy.value.selector).value;
        SecondPassKeepsValues(s, fields, true, i);
        FindLookupSame(c.definedBy.value.lookup, fields[sel], r[sel], 0);
        assert DefinedByFound(s, r, i) <==> DefinedByFound(s, fields, i);
      }
    }
  }

  // Sequence encoding.

  lemma {:induction false} MandatoryMissingFrom(s: Schema, fields: seq<Option<Value>>, i: nat, j: nat)
    requires s.kind.SequenceK? && |fields| == |s.kind.comps| && j <= i < |fields|
    requires !s.kind.comps[i].optional && fields[i].None?
    ensures EncodeFields(s, fields, j).Failure?
    decreases i - j
  {
    if j < i {
      MandatoryMissingFrom(s, fields, i, j + 1);
    }
  }

  /** A Sequence with a mandatory component left unset cannot be encoded. */
  lemma MandatoryMissing(s: Schema, fields: seq<Option<Value>>, i: nat)
    requires s.kind.SequenceK? && |fields| == |s.kind.comps| && i < |fields|
    requires !s.kind.comps[i].optional && fields[i].None?
    ensures EncodeContent(s, RecordV(fields)).Failure?
  {
    MandatoryMissingFrom(s, fields, i, 0);
  }

  // An absent optional component at the end of a Sequence.

  /** SEQUENCE { algorithm INTEGER, parameters ANY OPTIONAL }: the shape of an
      X.509 AlgorithmIdentifier whose parameters may be left out. */
  const AlgorithmSchema: Schema := SequenceType([
    Component("algorithm", IntegerType, false, None, None, None),
    Component("parameters", AnyType, true, None, None, None)])

  /** 02 01 05 is the INTEGER 5. */
  lemma ReadIntegerFive(strict: bool)
    ensures Read(IntegerType, [0x02, 0x01, 0x05], strict) == Success((IntV(5), []))
  {
    var content: Bytes := [0x02, 0x01, 0x05];
    assert TagOctet(Tag(Universal, false, 2)) == 0x02;
    assert content[1..] == [0x01, 0x05] && [0x01, 0x05][1..] == [0x05];
    assert [0x05][..1] == [0x05] && [0x05][1..] == [];
    assert ReadFrame(IntegerType.tags, content) == Success(([0x05], []));
    assert OctetsToInt([0x05], true) == Success(5);
  }

  /** The first pass of a SEQUENCE { INTEGER, ANY OPTIONAL } over 02 01 05:
      the integer, then nothing left, so the Any is absent. */
  lemma FirstPassIntegerThenAbsent(s: Schema, strict: bool)
    requires s.kind.SequenceK? && |s.kind.comps| == 2
    requires s.kind.comps[0].schema == IntegerType && !s.kind.comps[0].optional
    requires s.kind.comps[1].schema == AnyType && s.kind.comps[1].optional && s.kind.comps[1].default == None
    ensures ReadFields(s, [0x02, 0x01, 0x05], strict, 0) == Success(([Some(IntV(5)), None], []))
  {
    var comps := s.kind.comps;
    assert Read(AnyType, [], strict) == Failure(TagMismatch);
    var absent: seq<Option<Value>> := [None];
    assert [comps[1].default] + [] == absent;
    assert ReadFields(s, [], strict, 1) == Success((absent, []));
    ReadIntegerFive(strict);
    assert [Some(IntV(5))] + absent == [Some(IntV(5)), None];
  }

  /** 30 03 02 01 05 frames the contents 02 01 05 in a SEQUENCE. */
  lemma SequenceFrameOfFive()
    ensures ReadFrame([Tag(Universal, true, 16)], [0x30, 0x03, 0x02, 0x01, 0x05])
            == Success(([0x02, 0x01, 0x05], []))
  {
    var wire: Bytes := [0x30, 0x03, 0x02, 0x01, 0x05];
    var content: Bytes := [0x02, 0x01, 0x05];
    assert TagOctet(Tag(Universal, true, 16)) == 0x30;
    assert wire[1..] == [0x03] + content && ([0x03] + content)[1..] == content;
    assert content[..3] == content && content[3..] == [];
  }

  /** A SEQUENCE { INTEGER, ANY OPTIONAL } whose second pass leaves the
      fields as they are decodes 30 03 02 01 05 to the integer 5 and no Any. */
  lemma DecodeIntegerThenAbsent(s: Schema, strict: bool)
    requires s.tags == [Tag(Universal, true, 16)] && s.kind.SequenceK? && |s.kind.comps| == 2
    requires s.kind.comps[0].schema == IntegerType && !s.kind.comps[0].optional
    requires s.kind.comps[1].schema == AnyType && s.kind.comps[1].optional && s.kind.comps[1].default == None
    requires ResolveDefinedBy(s, [Some(IntV(5)), None], strict, 0) == Success([Some(IntV(5)), None])
    ensures Decode(s, [0x30, 0x03, 0x02, 0x01, 0x05], strict) == Success(RecordV([Some(IntV(5)), None]))
  {
    SequenceFrameOfFive();
    ContentIntegerThenAbsent(s, strict);
    assert Read(s, [0x30, 0x03, 0x02, 0x01, 0x05], strict) == Success((RecordV([Some(IntV(5)), None]), []));
  }

  /** The contents 02 01 05 of such a SEQUENCE. */
  lemma ContentIntegerThenAbsent(s: Schema, strict: bool)
    requires s.kind.SequenceK? && |s.kind.comps| == 2
    requires s.kind.comps[0].schema == IntegerType && !s.kind.comps[0].optional
    requires s.kind.comps[1].schema == AnyType && s.kind.comps[1].optional && s.kind.comps[1].default == None
    requires ResolveDefinedBy(s, [Some(IntV(5)), None], strict, 0) == Success([Some(IntV(5)), None])
    ensures DecodeContent(s, [0x02, 0x01, 0x05], strict) == Success(RecordV([Some(IntV(5)), None]))
  {
    FirstPassIntegerThenAbsent(s, strict);
  }

  /** 30 03 02 01 05 holds the algorithm and no parameters: the untagged Any
      finds nothing left to read, which is a tag error, so the optional
      component is absent rather than the input malformed. */
  lemma AbsentTrailingAny(strict: bool)
    ensures Decode(AlgorithmSchema, [0x30, 0x03, 0x02, 0x01, 0x05], strict)
            == Success(RecordV([Some(IntV(5)), None]))
  {
    var fields: seq<Option<Value>> := [Some(IntV(5)), None];
    assert ResolveDefinedBy(AlgorithmSchema, fields, strict, 2) == Success(fields);
    assert ResolveDefinedBy(AlgorithmSchema, fields, strict, 1) == Success(fields);
    DecodeIntegerThenAbsent(AlgorithmSchema, strict);
  }
}
