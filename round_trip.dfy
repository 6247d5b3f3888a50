/** The codec's central promise: decoding what the DER encoder produced gives
    back the value it was given, in strict and in lenient mode. Values are
    compared as the source compares them, by `value`, which for an Any is its
    undecoded bytes (Schemas.Undecoded).

    The promise needs the schema to be one the decoder can parse without
    guessing (WellFormed) and the value to be one the source's conversions
    could have produced (Conforms). */
module RoundTrip {
  import opened Wrappers
  import opened Errors
  import opened Integers
  import opened Tags
  import opened Schemas
  import opened Scalars
  import opened OctetOrder
  import opened Codec
  import opened Framing

  // Comparing values.

  function UndecodedField(o: Option<Value>): Option<Value> {
    if o.Some? then Some(Undecoded(o.value)) else None
  }

  /** ws matches fields[from..] component by component, up to decoded parts. */
  ghost predicate SameFields(ws: seq<Option<Value>>, fields: seq<Option<Value>>, from: nat) {
    && from + |ws| == |fields|
    && forall m :: 0 <= m < |ws| ==> UndecodedField(ws[m]) == UndecodedField(fields[from + m])
  }

  ghost predicate SameElems(ws: seq<Value>, vs: seq<Value>, from: nat) {
    && from + |ws| == |vs|
    && forall m :: 0 <= m < |ws| ==> Undecoded(ws[m]) == Undecoded(vs[from + m])
  }

  lemma RecordSame(a: seq<Option<Value>>, b: seq<Option<Value>>)
    requires SameFields(a, b, 0)
    ensures Undecoded(RecordV(a)) == Undecoded(RecordV(b))
  {
    var ua := Undecoded(RecordV(a)).fields;
    var ub := Undecoded(RecordV(b)).fields;
    assert |ua| == |ub|;
    forall m | 0 <= m < |ua|
      ensures ua[m] == ub[m]
    {
      assert ua[m] == UndecodedField(a[m]) && ub[m] == UndecodedField(b[m]);
    }
  }

  lemma ListSame(a: seq<Value>, b: seq<Value>)
    requires SameElems(a, b, 0)
    ensures Undecoded(ListV(a)) == Undecoded(ListV(b))
  {
    var ua := Undecoded(ListV(a)).elems;
    var ub := Undecoded(ListV(b)).elems;
    assert |ua| == |ub|;
    forall m | 0 <= m < |ua|
      ensures ua[m] == ub[m]
    {
      assert ua[m] == Undecoded(a[m]) && ub[m] == Undecoded(b[m]);
    }
  }

  lemma ChoiceSame(n: string, a: Value, b: Value)
    requires Undecoded(a) == Undecoded(b)
    ensures Undecoded(ChoiceV(map[n := a])) == Undecoded(ChoiceV(map[n := b]))
  {
    assert Undecoded(ChoiceV(map[n := a])).chosen == map[n := Undecoded(a)];
    assert Undecoded(ChoiceV(map[n := b])).chosen == map[n := Undecoded(b)];
  }

  lemma SingletonMap(m: map<string, Value>, n: string)
    requires |m| == 1 && n in m
    ensures m == map[n := m[n]]
  {
    var others := m.Keys - {n};
    assert |others| == 0;
    assert m.Keys == {n} by {
      assert forall k | k in m.Keys :: k == n || k in others;
    }
  }

  // The schemas the round trip holds for.

  /** The tags an encoding of s can start with: its outer tag, or for an
      untagged Choice the outer tag of an alternative; an untagged Any can
      start with anything. */
  ghost predicate CanStartWith(s: Schema, t: Tag) {
    if s.tags != [] then OuterTag(s) == t
    else if s.kind.ChoiceK? then
      exists k :: 0 <= k < |s.kind.alts| && HasOuterTag(s.kind.alts[k].schema, t)
    else true
  }

  predicate AllOptional(comps: seq<Component>, from: nat, to: nat) {
    forall m :: from <= m < to && m < |comps| ==> comps[m].optional
  }

  lemma AllOptionalCons(comps: seq<Component>, i: nat, j: nat)
    requires i < |comps| && comps[i].optional && AllOptional(comps, i + 1, j)
    ensures AllOptional(comps, i, j)
  {
  }

  /** An optional component's outer tag cannot start any component that may
      come next on the wire when it is absent, so a tag mismatch means
      exactly that it is absent. */
  ghost predicate Unambiguous(comps: seq<Component>) {
    forall i, j :: 0 <= i < j < |comps| && comps[i].optional && comps[i].schema.tags != []
                   && AllOptional(comps, i + 1, j)
                   ==> !CanStartWith(comps[j].schema, OuterTag(comps[i].schema))
  }

  predicate SingleTLV(raw: Bytes) {
    PeekTLV(raw).Success? && PeekTLV(raw).value.total == |raw|
  }

  /** The values the source's typed objects can hold: the right kind for the
      schema, a Choice with exactly one alternative set, a SetOf already in
      its sorted order, a Sequence whose defaulted components hold a value
      (the conversion stores the default for None) and whose defined-by
      components decode against the type their selector finds. */
  ghost predicate Conforms(s: Schema, v: Value)
    decreases s
  {
    match s.kind
    case BoolK => v.BoolV?
    case IntK => v.IntV?
    case StringK => v.StrV?
    case BitStringK => v.BitsV?
    case AnyK => v.AnyV? && (s.tags == [] ==> SingleTLV(v.raw))
    case ChoiceK(alts) =>
      && v.ChoiceV? && |v.chosen| == 1
      && var k := FindAltByName(alts, v.chosen);
         k.Some? && Conforms(alts[k.value].schema, v.chosen[alts[k.value].name])
    case SequenceOfK(e) =>
      v.ListV? && forall m :: 0 <= m < |v.elems| ==> Conforms(e, v.elems[m])
    case SetOfK(e) =>
      && v.ListV? && (forall m :: 0 <= m < |v.elems| ==> Conforms(e, v.elems[m]))
      && (EncodeEach(e, v.elems, 0).Success? ==> Sorted(EncodeEach(e, v.elems, 0).value))
    case SequenceK(comps) =>
      && v.RecordV? && |v.fields| == |comps|
      && (forall m :: 0 <= m < |comps| ==>
            && (v.fields[m].Some? ==> Conforms(comps[m].schema, v.fields[m].value))
            && (comps[m].default.Some? ==> v.fields[m].Some?))
      && forall m :: 0 <= m < |comps| ==> DefinedByDecodes(comps, v.fields, m)
  }

  ghost predicate DefinedByDecodes(comps: seq<Component>, fields: seq<Option<Value>>, i: nat)
    requires |fields| == |comps| && i < |comps|
  {
    comps[i].definedBy.Some? ==>
      var db := comps[i].definedBy.value;
      var sel := IndexOfName(comps, db.selector);
      sel.Some? ==>
        var k := FindLookup(db.lookup, fields[sel.value]);
        k.Some? && fields[i].Some? ==>
          && fields[i].value.AnyV?
          && Decode(db.lookup[k.value].schema, fields[i].value.raw, true).Success?
          && Decode(db.lookup[k.value].schema, fields[i].value.raw, false).Success?
  }

  /** A default is a conforming value whose encoding is the encoded default,
      and makes the component optional (as Component.__init__ does). */
  ghost predicate DefaultConsistent(c: Component) {
    match c.default
    case None => c.encodedDefault.None?
    case Some(d) =>
      && c.optional && Conforms(c.schema, d)
      && Encode(c.schema, d).Success? && c.encodedDefault == Some(Encode(c.schema, d).value)
  }

  /** Schemas the decoder reads back without guessing: every type read on its
      own is tagged or an Any or a Choice; a Choice has tagged alternatives
      with distinct outer tags; an optional component is tagged and cannot be
      confused with what follows it; defined-by selectors name components. */
  ghost predicate WellFormed(s: Schema)
    decreases s
  {
    && (s.tags != [] || s.kind.AnyK? || s.kind.ChoiceK?)
    && match s.kind
       case ChoiceK(alts) =>
         && alts != []
         && (forall k :: 0 <= k < |alts| ==> alts[k].schema.tags != [] && WellFormed(alts[k].schema))
         && (forall j, k :: 0 <= j < k < |alts| && alts[j].schema.tags != [] ==>
               !HasOuterTag(alts[k].schema, OuterTag(alts[j].schema)))
       case SequenceOfK(e) => WellFormed(e)
       case SetOfK(e) => WellFormed(e)
       case SequenceK(comps) =>
         && (forall i :: 0 <= i < |comps| ==>
               && WellFormed(comps[i].schema)
               && (comps[i].optional ==> comps[i].schema.tags != [])
               && DefaultConsistent(comps[i])
               && (comps[i].definedBy.Some? ==> IndexOfName(comps, comps[i].definedBy.value.selector).Some?))
         && Unambiguous(comps)
       case _ => true
  }

  // Where encodings start.

  /** A conforming value's encoding starts with a tag its schema can start
      with. */
  lemma {:induction false} EncodingStart(s: Schema, v: Value, e: Bytes)
    requires WellFormed(s) && Conforms(s, v) && Encode(s, v) == Success(e)
    ensures ReadTag(e).Success? && CanStartWith(s, ReadTag(e).value.0)
  {
    var c := EncodeContent(s, v).value;
    if s.tags != [] {
      ReadTagOctet(OuterTag(s), e[1..]);
      assert e == [e[0]] + e[1..];
    } else if s.kind.AnyK? {
    } else {
      var alts := s.kind.alts;
      var k := FindAltByName(alts, v.chosen).value;
      var a := alts[k].schema;
      assert Encode(a, v.chosen[alts[k].name]) == Success(e);
      ReadTagOctet(OuterTag(a), e[1..]);
      assert e == [e[0]] + e[1..];
      assert HasOuterTag(alts[k].schema, ReadTag(e).value.0);
    }
  }

  /** The encoding of components i.. starts with a tag that a component j
      can start with, all components before j being optional. */
  lemma {:induction false} FieldsStart(s: Schema, fields: seq<Option<Value>>, i: nat, e: Bytes)
    requires WellFormed(s) && s.kind.SequenceK? && Conforms(s, RecordV(fields))
    requires |fields| == |s.kind.comps| && i <= |fields|
    requires EncodeFields(s, fields, i) == Success(e) && e != []
    ensures ReadTag(e).Success?
    ensures exists j :: i <= j < |fields| && AllOptional(s.kind.comps, i, j)
                        && CanStartWith(s.kind.comps[j].schema, ReadTag(e).value.0)
    decreases |fields| - i
  {
    var comps := s.kind.comps;
    var c := comps[i];
    EncodeFieldsStep(s, fields, i);
    var tail := EncodeFields(s, fields, i + 1).value;
    if Omitted(c, fields[i]) {
      assert c.optional by {
        assert DefaultConsistent(c);
      }
      FieldsStart(s, fields, i + 1, tail);
      var j :| i + 1 <= j < |fields| && AllOptional(comps, i + 1, j)
               && CanStartWith(comps[j].schema, ReadTag(e).value.0);
      AllOptionalCons(comps, i, j);
    } else {
      FieldsStartPresent(s, fields, i, e);
      assert AllOptional(comps, i, i);
    }
  }

  /** FieldsStart when component i is written: its own encoding comes first. */
  lemma FieldsStartPresent(s: Schema, fields: seq<Option<Value>>, i: nat, e: Bytes)
    requires WellFormed(s) && s.kind.SequenceK? && Conforms(s, RecordV(fields))
    requires |fields| == |s.kind.comps| && i < |fields|
    requires EncodeFields(s, fields, i) == Success(e)
    requires fields[i].Some? && Encode(s.kind.comps[i].schema, fields[i].value).Success?
    requires s.kind.comps[i].encodedDefault != Some(Encode(s.kind.comps[i].schema, fields[i].value).value)
    ensures ReadTag(e).Success? && CanStartWith(s.kind.comps[i].schema, ReadTag(e).value.0)
  {
    var c := s.kind.comps[i];
    assert Conforms(c.schema, fields[i].value);
    var tail := EncodeFields(s, fields, i + 1).value;
    var enc := Encode(c.schema, fields[i].value).value;
    assert e == enc + tail;
    EncodingStart(c.schema, fields[i].value, enc);
    assert e[1..] == enc[1..] + tail;
  }

  // The round trip, by induction on the schema.

  /** Abstract.read inverts Abstract.encode and hands back what followed. */
  lemma {:induction false} ReadRoundTrip(s: Schema, v: Value, e: Bytes, rest: Bytes, strict: bool)
    requires WellFormed(s) && Conforms(s, v) && Encode(s, v) == Success(e)
    ensures Read(s, e + rest, strict).Success?
    ensures Read(s, e + rest, strict).value.1 == rest
    ensures Undecoded(Read(s, e + rest, strict).value.0) == Undecoded(v)
    decreases s, 3
  {
    var c := EncodeContent(s, v).value;
    if s.tags != [] {
      FrameRoundTrip(s.tags, c, e, rest);
      ContentRoundTrip(s, v, c, strict);
    } else if s.kind.AnyK? {
      PeekExtend(e, rest);
      assert (e + rest)[..|e|] == e && (e + rest)[|e|..] == rest;
    } else {
      var alts := s.kind.alts;
      var k := FindAltByName(alts, v.chosen).value;
      var a := alts[k].schema;
      assert Encode(a, v.chosen[alts[k].name]) == Success(e);
      PeekFramed(a.tags, EncodeContent(a, v.chosen[alts[k].name]).value, e, rest);
      PeekFramed(a.tags, EncodeContent(a, v.chosen[alts[k].name]).value, e, []);
      assert e + [] == e;
      var h := PeekTLV(e + rest).value;
      assert (e + rest)[..|e|] == e && (e + rest)[|e|..] == rest;
      assert (e + rest)[h.header..h.total] == e[h.header..];
      ChoiceRoundTrip(s, v, e, strict);
    }
  }

  /** The chosen alternative's encoding decodes, through the tag map, to a
      Choice holding the same alternative. */
  lemma {:induction false} ChoiceRoundTrip(s: Schema, v: Value, e: Bytes, strict: bool)
    requires s.kind.ChoiceK? && WellFormed(s) && Conforms(s, v) && EncodeContent(s, v) == Success(e)
    ensures PeekTLV(e).Success? && PeekTLV(e).value.total == |e|
    ensures DecodeReadahead(s, e, PeekTLV(e).value.tag, e[PeekTLV(e).value.header..], strict).Success?
    ensures Undecoded(DecodeReadahead(s, e, PeekTLV(e).value.tag, e[PeekTLV(e).value.header..], strict).value)
            == Undecoded(v)
    decreases s, 1
  {
    var alts := s.kind.alts;
    var k := FindAltByName(alts, v.chosen).value;
    var alt := alts[k];
    var x := v.chosen[alt.name];
    var ac := EncodeContent(alt.schema, x).value;
    assert Encode(alt.schema, x) == Success(e);
    PeekFramed(alt.schema.tags, ac, e, []);
    assert e + [] == e;
    var h := PeekTLV(e).value;
    var inner := e[h.header..];
    assert h.tag == OuterTag(alt.schema);
    var found := FindAltByTag(alts, h.tag);
    assert found == Some(k) by {
      assert HasOuterTag(alts[k].schema, h.tag);
    }
    if |alt.schema.tags| == 1 {
      assert alt.schema.tags[..0] == [];
      assert inner == ac;
      ContentRoundTrip(alt.schema, x, ac, strict);
    } else {
      ReadRoundTrip(alt.schema, x, e, [], strict);
    }
    var w := DecodeAlternative(s, k, e, inner, strict).value;
    assert Undecoded(w) == Undecoded(x);
    SingletonMap(v.chosen, alt.name);
    ChoiceSame(alt.name, w, x);
  }

  /** Each kind's _decode_value inverts its _encode_value. */
  lemma {:induction false} ContentRoundTrip(s: Schema, v: Value, c: Bytes, strict: bool)
    requires WellFormed(s) && Conforms(s, v) && EncodeContent(s, v) == Success(c)
    ensures DecodeContent(s, c, strict).Success?
    ensures Undecoded(DecodeContent(s, c, strict).value) == Undecoded(v)
    decreases s, 2
  {
    match s.kind
    case BoolK => BoolRoundTrip(v.b, strict);
    case IntK => IntRoundTrip(v.i, true);
    case StringK =>
    case BitStringK => BitStringRoundTrip(v.bits);
    case AnyK =>
    case ChoiceK(_) => ChoiceRoundTrip(s, v, c, strict);
    case SequenceOfK(elem) =>
      ElemsRoundTrip(elem, v.elems, 0, strict);
      ListSame(ReadElems(elem, c, strict).value, v.elems);
    case SetOfK(elem) =>
      var encs := EncodeEach(elem, v.elems, 0).value;
      SortedUnique(SortOctets(encs), encs);
      ElemsRoundTrip(elem, v.elems, 0, strict);
      ListSame(ReadElems(elem, c, strict).value, v.elems);
    case SequenceK(comps) =>
      FieldsRoundTrip(s, v.fields, 0, strict);
      var ws := ReadFields(s, c, strict, 0).value.0;
      ResolveRoundTrip(s, v.fields, ws, 0, strict);
      RecordSame(ResolveDefinedBy(s, ws, strict, 0).value, v.fields);
  }

  /** The loop of SequenceOf/SetOf._decode_value reads back the elements in
      the order their encodings were concatenated. */
  lemma {:induction false} ElemsRoundTrip(elem: Schema, vs: seq<Value>, i: nat, strict: bool)
    requires WellFormed(elem) && forall m :: 0 <= m < |vs| ==> Conforms(elem, vs[m])
    requires i <= |vs| && EncodeEach(elem, vs, i).Success?
    ensures ReadElems(elem, Concat(EncodeEach(elem, vs, i).value), strict).Success?
    ensures SameElems(ReadElems(elem, Concat(EncodeEach(elem, vs, i).value), strict).value, vs, i)
    decreases elem, 4, |vs| - i
  {
    var encs := EncodeEach(elem, vs, i).value;
    if i < |vs| {
      var e := Encode(elem, vs[i]).value;
      var tail := EncodeEach(elem, vs, i + 1).value;
      assert Concat(encs) == e + Concat(tail) by {
        assert encs == [e] + tail;
        assert encs[1..] == tail;
      }
      EncodingStart(elem, vs[i], e);
      ReadRoundTrip(elem, vs[i], e, Concat(tail), strict);
      ElemsRoundTrip(elem, vs, i + 1, strict);
      ReadElemsCons(elem, e + Concat(tail), strict);
      SameElemsCons(Read(elem, e + Concat(tail), strict).value.0,
                    ReadElems(elem, Concat(tail), strict).value, vs, i);
    }
  }

  lemma ReadElemsCons(elem: Schema, buf: Bytes, strict: bool)
    requires buf != [] && Read(elem, buf, strict).Success?
    requires ReadElems(elem, Read(elem, buf, strict).value.1, strict).Success?
    ensures ReadElems(elem, buf, strict)
            == Success([Read(elem, buf, strict).value.0]
                       + ReadElems(elem, Read(elem, buf, strict).value.1, strict).value)
  {
  }

  lemma SameElemsCons(w: Value, ws: seq<Value>, vs: seq<Value>, i: nat)
    requires i < |vs| && Undecoded(w) == Undecoded(vs[i]) && SameElems(ws, vs, i + 1)
    ensures SameElems([w] + ws, vs, i)
  {
    forall m | 0 <= m < |ws| + 1
      ensures Undecoded(([w] + ws)[m]) == Undecoded(vs[i + m])
    {
      if m > 0 {
        assert ([w] + ws)[m] == ws[m - 1];
      }
    }
  }

  /** The first pass of Sequence._decode_value reads back every component:
      present ones from their encodings, absent or default-valued ones by the
      tag mismatch that their absence causes. */
  lemma {:induction false} FieldsRoundTrip(s: Schema, fields: seq<Option<Value>>, i: nat, strict: bool)
    requires WellFormed(s) && s.kind.SequenceK? && Conforms(s, RecordV(fields))
    requires i <= |fields| && EncodeFields(s, fields, i).Success?
    ensures ReadFields(s, EncodeFields(s, fields, i).value, strict, i).Success?
    ensures ReadFields(s, EncodeFields(s, fields, i).value, strict, i).value.1 == []
    ensures SameFields(ReadFields(s, EncodeFields(s, fields, i).value, strict, i).value.0, fields, i)
    decreases s, 0, |fields| - i
  {
    var comps := s.kind.comps;
    var e := EncodeFields(s, fields, i).value;
    if i < |fields| {
      var c := comps[i];
      assert DefaultConsistent(c) && (c.optional ==> c.schema.tags != []);
      assert fields[i].Some? ==> Conforms(c.schema, fields[i].value);
      assert c.default.Some? ==> fields[i].Some?;
      EncodeFieldsStep(s, fields, i);
      var tail := EncodeFields(s, fields, i + 1).value;
      FieldsRoundTrip(s, fields, i + 1, strict);
      if Omitted(c, fields[i]) {
        FieldsOmittedStep(s, fields, i, tail, strict);
      } else {
        FieldsPresentStep(s, fields, i, tail, strict);
      }
    }
  }

  /** FieldsRoundTrip for an omitted component i, given the round trip of
      components i + 1 onwards. */
  lemma FieldsOmittedStep(s: Schema, fields: seq<Option<Value>>, i: nat, tail: Bytes, strict: bool)
    requires WellFormed(s) && s.kind.SequenceK? && Conforms(s, RecordV(fields))
    requires i < |fields| && EncodeFields(s, fields, i).Success? && Omitted(s.kind.comps[i], fields[i])
    requires EncodeFields(s, fields, i) == EncodeFields(s, fields, i + 1) == Success(tail)
    requires fields[i].None? ==> s.kind.comps[i].optional
    requires ReadFields(s, tail, strict, i + 1).Success? && ReadFields(s, tail, strict, i + 1).value.1 == []
    requires SameFields(ReadFields(s, tail, strict, i + 1).value.0, fields, i + 1)
    ensures ReadFields(s, tail, strict, i).Success?
    ensures ReadFields(s, tail, strict, i).value.1 == []
    ensures SameFields(ReadFields(s, tail, strict, i).value.0, fields, i)
    decreases s, 0, |fields| - i, 0
  {
    var c := s.kind.comps[i];
    assert DefaultConsistent(c) && (c.optional ==> c.schema.tags != []);
    assert c.default.Some? ==> fields[i].Some?;
    var wt := ReadFields(s, tail, strict, i + 1).value.0;
    AbsentMismatch(s, fields, i, tail, strict);
    ReadFieldsAbsent(s, tail, strict, i);
    if fields[i].Some? {
      var x := fields[i].value;
      assert Conforms(c.schema, x);
      var enc := Encode(c.schema, x).value;
      ReadRoundTrip(c.schema, x, enc, [], strict);
      ReadRoundTrip(c.schema, c.default.value, enc, [], strict);
    }
    SameFieldsCons(c.default, wt, fields, i);
  }

  /** FieldsRoundTrip for a component i present in the encoding, given the
      round trip of components i + 1 onwards. */
  lemma FieldsPresentStep(s: Schema, fields: seq<Option<Value>>, i: nat, tail: Bytes, strict: bool)
    requires WellFormed(s) && s.kind.SequenceK? && Conforms(s, RecordV(fields))
    requires i < |fields| && EncodeFields(s, fields, i).Success? && !Omitted(s.kind.comps[i], fields[i])
    requires fields[i].Some? && Encode(s.kind.comps[i].schema, fields[i].value).Success?
    requires EncodeFields(s, fields, i + 1) == Success(tail)
    requires EncodeFields(s, fields, i).value == Encode(s.kind.comps[i].schema, fields[i].value).value + tail
    requires ReadFields(s, tail, strict, i + 1).Success? && ReadFields(s, tail, strict, i + 1).value.1 == []
    requires SameFields(ReadFields(s, tail, strict, i + 1).value.0, fields, i + 1)
    ensures ReadFields(s, EncodeFields(s, fields, i).value, strict, i).Success?
    ensures ReadFields(s, EncodeFields(s, fields, i).value, strict, i).value.1 == []
    ensures SameFields(ReadFields(s, EncodeFields(s, fields, i).value, strict, i).value.0, fields, i)
    decreases s, 0, |fields| - i, 0
  {
    var c := s.kind.comps[i];
    var e := EncodeFields(s, fields, i).value;
    var x := fields[i].value;
    assert Conforms(c.schema, x);
    var enc := Encode(c.schema, x).value;
    var wt := ReadFields(s, tail, strict, i + 1).value.0;
    ReadRoundTrip(c.schema, x, enc, tail, strict);
    ReadFieldsPresent(s, e, strict, i);
    SameFieldsCons(Some(Read(c.schema, e, strict).value.0), wt, fields, i);
  }

  /** A component that leaves no trace in the encoding: missing, or equal in
      encoding to its default. */
  predicate Omitted(c: Component, o: Option<Value>) {
    o.None? || (Encode(c.schema, o.value).Success? && c.encodedDefault == Some(Encode(c.schema, o.value).value))
  }

  lemma EncodeFieldsStep(s: Schema, fields: seq<Option<Value>>, i: nat)
    requires s.kind.SequenceK? && |fields| == |s.kind.comps| && i < |fields|
    requires EncodeFields(s, fields, i).Success?
    ensures EncodeFields(s, fields, i + 1).Success?
    ensures Omitted(s.kind.comps[i], fields[i]) ==>
              EncodeFields(s, fields, i) == EncodeFields(s, fields, i + 1)
              && (fields[i].None? ==> s.kind.comps[i].optional)
    ensures !Omitted(s.kind.comps[i], fields[i]) ==>
              && fields[i].Some? && Encode(s.kind.comps[i].schema, fields[i].value).Success?
              && EncodeFields(s, fields, i).value
                 == Encode(s.kind.comps[i].schema, fields[i].value).value + EncodeFields(s, fields, i + 1).value
  {
    if fields[i].Some? {
      assert [] + EncodeFields(s, fields, i + 1).value == EncodeFields(s, fields, i + 1).value;
    }
  }

  lemma ReadFieldsAbsent(s: Schema, buf: Bytes, strict: bool, i: nat)
    requires s.kind.SequenceK? && i < |s.kind.comps| && s.kind.comps[i].optional
    requires Read(s.kind.comps[i].schema, buf, strict) == Failure(TagMismatch)
    requires ReadFields(s, buf, strict, i + 1).Success?
    ensures ReadFields(s, buf, strict, i)
            == Success(([s.kind.comps[i].default] + ReadFields(s, buf, strict, i + 1).value.0,
                        ReadFields(s, buf, strict, i + 1).value.1))
  {
  }

  lemma ReadFieldsPresent(s: Schema, buf: Bytes, strict: bool, i: nat)
    requires s.kind.SequenceK? && i < |s.kind.comps|
    requires Read(s.kind.comps[i].schema, buf, strict).Success?
    requires ReadFields(s, Read(s.kind.comps[i].schema, buf, strict).value.1, strict, i + 1).Success?
    ensures ReadFields(s, buf, strict, i)
            == Success(([Some(Read(s.kind.comps[i].schema, buf, strict).value.0)]
                        + ReadFields(s, Read(s.kind.comps[i].schema, buf, strict).value.1, strict, i + 1).value.0,
                        ReadFields(s, Read(s.kind.comps[i].schema, buf, strict).value.1, strict, i + 1).value.1))
  {
  }

  lemma SameFieldsCons(o: Option<Value>, ws: seq<Option<Value>>, fields: seq<Option<Value>>, i: nat)
    requires i < |fields| && UndecodedField(o) == UndecodedField(fields[i]) && SameFields(ws, fields, i + 1)
    ensures SameFields([o] + ws, fields, i)
  {
    forall m | 0 <= m < |ws| + 1
      ensures UndecodedField(([o] + ws)[m]) == UndecodedField(fields[i + m])
    {
      if m > 0 {
        assert ([o] + ws)[m] == ws[m - 1];
      }
    }
  }

  /** When component i is absent from the encoding, reading it from what
      follows fails with a tag error. */
  lemma {:induction false} AbsentMismatch(s: Schema, fields: seq<Option<Value>>, i: nat, tail: Bytes, strict: bool)
    requires WellFormed(s) && s.kind.SequenceK? && Conforms(s, RecordV(fields))
    requires i < |fields| && s.kind.comps[i].optional && s.kind.comps[i].schema.tags != []
    requires EncodeFields(s, fields, i + 1) == Success(tail)
    ensures Read(s.kind.comps[i].schema, tail, strict) == Failure(TagMismatch)
  {
    var comps := s.kind.comps;
    var c := comps[i];
    if tail != [] {
      FieldsStart(s, fields, i + 1, tail);
      var t := ReadTag(tail).value.0;
      var j :| i + 1 <= j < |fields| && AllOptional(comps, i + 1, j) && CanStartWith(comps[j].schema, t);
      assert !CanStartWith(comps[j].schema, OuterTag(c.schema));
      if tail[0] == TagOctet(OuterTag(c.schema)) {
        TagOctetInjective(t, OuterTag(c.schema));
      }
    }
    assert ReadFrame(c.schema.tags, tail) == Failure(TagMismatch);
  }

  /** The second pass keeps every component's value, decoding the defined-by
      Anys that the first pass left undecoded. */
  lemma {:induction false} ResolveRoundTrip(s: Schema, fields: seq<Option<Value>>, ws: seq<Option<Value>>,
                                            i: nat, strict: bool)
    requires WellFormed(s) && s.kind.SequenceK? && Conforms(s, RecordV(fields))
    requires SameFields(ws, fields, 0) && i <= |ws|
    ensures ResolveDefinedBy(s, ws, strict, i).Success?
    ensures SameFields(ResolveDefinedBy(s, ws, strict, i).value, fields, 0)
    decreases |ws| - i
  {
    if i < |ws| {
      var ws' := ResolveStep(s, fields, ws, i, strict);
      ResolveRoundTrip(s, fields, ws', i + 1, strict);
    }
  }

  /** One component of the second pass: it leaves the fields the same up to
      decoding, and the pass goes on from the next component. */
  lemma ResolveStep(s: Schema, fields: seq<Option<Value>>, ws: seq<Option<Value>>, i: nat, strict: bool)
    returns (ws': seq<Option<Value>>)
    requires WellFormed(s) && s.kind.SequenceK? && Conforms(s, RecordV(fields))
    requires SameFields(ws, fields, 0) && i < |ws|
    ensures SameFields(ws', fields, 0)
    ensures ResolveDefinedBy(s, ws, strict, i) == ResolveDefinedBy(s, ws', strict, i + 1)
  {
    var comps := s.kind.comps;
    var c := comps[i];
    ws' := ws;
    if c.definedBy.Some? {
      var db := c.definedBy.value;
      var sel := IndexOfName(comps, db.selector).value;
      FindLookupSame(db.lookup, ws[sel], fields[sel], 0);
      assert DefinedByDecodes(comps, fields, i);
      match FindLookup(db.lookup, ws[sel])
      case None =>
      case Some(k) =>
        assert UndecodedField(ws[i]) == UndecodedField(fields[i]);
        if fields[i].Some? {
          var raw := fields[i].value.raw;
          assert ws[i].Some? && ws[i].value.AnyV? && ws[i].value.raw == raw;
          var d := Decode(db.lookup[k].schema, raw, strict).value;
          ws' := ws[i := Some(AnyV(raw, Some(d)))];
          assert UndecodedField(ws'[i]) == Some(AnyV(raw, None));
        }
    }
  }

  /** The lookup only sees a selector's value as the source compares it. */
  lemma {:induction false} FindLookupSame(lookup: seq<LookupEntry>, a: Option<Value>, b: Option<Value>, from: nat)
    requires UndecodedField(a) == UndecodedField(b) && from <= |lookup|
    ensures FindLookup(lookup, a, from) == FindLookup(lookup, b, from)
    decreases |lookup| - from
  {
    if a.Some? && from < |lookup| {
      FindLookupSame(lookup, a, b, from + 1);
    }
  }

  // The headline properties.

  /** decode(encode(v)) == v, in strict and in lenient mode. */
  lemma DecodeRoundTrip(s: Schema, v: Value, strict: bool)
    requires WellFormed(s) && Conforms(s, v) && Encode(s, v).Success?
    ensures Decode(s, Encode(s, v).value, strict).Success?
    ensures Undecoded(Decode(s, Encode(s, v).value, strict).value) == Undecoded(v)
  {
    var e := Encode(s, v).value;
    ReadRoundTrip(s, v, e, [], strict);
    assert e + [] == e;
  }

  /** DER is a distinguished encoding: conforming values that compare unequal
      never share an encoding. */
  lemma EncodingDeterminesValue(s: Schema, x: Value, y: Value)
    requires WellFormed(s) && Conforms(s, x) && Conforms(s, y)
    requires Encode(s, x).Success? && Encode(s, x) == Encode(s, y)
    ensures Undecoded(x) == Undecoded(y)
  {
    DecodeRoundTrip(s, x, true);
    DecodeRoundTrip(s, y, true);
  }
}
