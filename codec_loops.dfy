/** The loops of Abstract.encode, Abstract.read, SequenceOf/SetOf._decode_value
    and Sequence._decode_value, written as the source writes them (rebinding
    the buffer, appending to the result) and proved to compute the functions
    of the Codec module. */
module CodecLoops {
  import opened Wrappers
  import opened Errors
  import opened Integers
  import opened Tags
  import opened Schemas
  import opened Codec

  // Abstract.encode.

  lemma FrameStep(tags: seq<Tag>, content: Bytes, i: nat)
    requires i < |tags|
    ensures Frame(tags[..i + 1], content)
            == (if Frame(tags[..i], content).Failure? then Frame(tags[..i], content)
                else Wrap(tags[i], Frame(tags[..i], content).value))
  {
    assert tags[..i + 1][..i] == tags[..i];
  }

  /** Once one header cannot be written, no more can. */
  lemma {:induction false} FrameFailureExtends(tags: seq<Tag>, content: Bytes, i: nat)
    requires i <= |tags| && Frame(tags[..i], content).Failure?
    ensures Frame(tags, content).Failure?
    decreases |tags| - i
  {
    if i < |tags| {
      FrameStep(tags, content, i);
      FrameFailureExtends(tags, content, i + 1);
    } else {
      assert tags[..i] == tags;
    }
  }

  /** Abstract.encode: the contents, then for each tag, innermost first, the
      tag octet and the length put in front. */
  method EncodeValue(s: Schema, v: Value) returns (r: Result<Bytes, Error>)
    ensures r == Encode(s, v)
  {
    var content := EncodeContent(s, v);
    if content.Failure? {
      return Failure(content.error);
    }
    var encoded := content.value;
    for i := 0 to |s.tags|
      invariant Frame(s.tags[..i], content.value) == Success(encoded)
    {
      FrameStep(s.tags, content.value, i);
      var length := EncodeLength(|encoded|);
      if length.Failure? {
        FrameFailureExtends(s.tags, content.value, i + 1);
        return Failure(length.error);
      }
      encoded := [TagOctet(s.tags[i])] + length.value + encoded;
    }
    assert s.tags[..|s.tags|] == s.tags;
    return Success(encoded);
  }

  // Abstract.read.

  /** What is left of ReadFrame once the headers of `ts` remain to be read
      from `rest`, the last length read being `len`. */
  function FrameRemaining(ts: seq<Tag>, rest: Bytes, len: nat): Result<(Bytes, Bytes), Error>
    requires len <= |rest|
  {
    if ts == [] then Success((rest[..len], rest[len..])) else ReadFrame(ts, rest)
  }

  /** The loop of Abstract.read meets a tag octet other than that of tag i - 1. */
  lemma FrameRemainingMismatch(tags: seq<Tag>, i: nat, rest: Bytes, len: nat)
    requires 0 < i <= |tags| && len <= |rest|
    requires |rest| == 0 || rest[0] != TagOctet(tags[i - 1])
    ensures FrameRemaining(tags[..i], rest, len) == Failure(TagMismatch)
  {
    var ts := tags[..i];
    assert ts[|ts| - 1] == tags[i - 1];
  }

  /** The loop of Abstract.read past a matching tag octet meets a length it
      cannot read. */
  lemma FrameRemainingBadLength(tags: seq<Tag>, i: nat, rest: Bytes, len: nat)
    requires 0 < i <= |tags| && len <= |rest|
    requires |rest| > 0 && rest[0] == TagOctet(tags[i - 1]) && ReadLength(rest[1..]).Failure?
    ensures FrameRemaining(tags[..i], rest, len) == Failure(ReadLength(rest[1..]).error)
  {
    var ts := tags[..i];
    assert ts[|ts| - 1] == tags[i - 1];
  }

  /** One turn of the loop of Abstract.read past a matching tag octet and a
      length `n` followed by `after`: a length longer than what follows is
      malformed, and otherwise what remains is the frame of the inner tags. */
  lemma FrameRemainingStep(tags: seq<Tag>, i: nat, rest: Bytes, len: nat, n: nat, after: Bytes)
    requires 0 < i <= |tags| && len <= |rest|
    requires |rest| > 0 && rest[0] == TagOctet(tags[i - 1]) && ReadLength(rest[1..]) == Success((n, after))
    ensures |after| < n ==> FrameRemaining(tags[..i], rest, len) == Failure(Malformed)
    ensures n <= |after| ==> FrameRemaining(tags[..i], rest, len) == FrameRemaining(tags[..i - 1], after, n)
  {
    var ts := tags[..i];
    assert ts[|ts| - 1] == tags[i - 1];
    assert ts[..|ts| - 1] == tags[..i - 1];
  }

  /** The tag-checking loop of Abstract.read: for each tag, outermost first,
      match the tag octet, read the length and check that it fits. The
      contents are the innermost length's worth of bytes. */
  method ReadHeaders(tags: seq<Tag>, buf: Bytes) returns (r: Result<(Bytes, Bytes), Error>)
    requires tags != []
    ensures r == ReadFrame(tags, buf)
  {
    var rest := buf;
    var len: nat := 0;
    var i := |tags|;
    assert tags[..i] == tags;
    while i > 0
      invariant 0 <= i <= |tags| && len <= |rest|
      invariant ReadFrame(tags, buf) == FrameRemaining(tags[..i], rest, len)
    {
      if |rest| == 0 || rest[0] != TagOctet(tags[i - 1]) {
        FrameRemainingMismatch(tags, i, rest, len);
        return Failure(TagMismatch);
      }
      var read := ReadLength(rest[1..]);
      if read.Failure? {
        FrameRemainingBadLength(tags, i, rest, len);
        return Failure(read.error);
      }
      FrameRemainingStep(tags, i, rest, len, read.value.0, read.value.1);
      if |read.value.1| < read.value.0 {
        return Failure(Malformed);
      }
      rest, len, i := read.value.1, read.value.0, i - 1;
    }
    return Success((rest[..len], rest[len..]));
  }

  // SequenceOf/SetOf._decode_value.

  function PrependElems(pre: seq<Value>, r: Result<seq<Value>, Error>): Result<seq<Value>, Error> {
    if r.Success? then Success(pre + r.value) else Failure(r.error)
  }

  /** The decoding loop of SequenceOf and SetOf: read elements until the
      contents are used up. */
  method DecodeElements(elem: Schema, buf: Bytes, strict: bool) returns (r: Result<seq<Value>, Error>)
    ensures r == ReadElems(elem, buf, strict)
  {
    var ret := [];
    var rest := buf;
    assert PrependElems([], ReadElems(elem, buf, strict)) == ReadElems(elem, buf, strict) by {
      var whole := ReadElems(elem, buf, strict);
      assert whole.Success? ==> [] + whole.value == whole.value;
    }
    while rest != []
      invariant ReadElems(elem, buf, strict) == PrependElems(ret, ReadElems(elem, rest, strict))
      decreases |rest|
    {
      ReadElemsStep(elem, buf, strict, ret, rest);
      var read := Read(elem, rest, strict);
      if read.Failure? {
        return Failure(read.error);
      }
      ret := ret + [read.value.0];
      rest := read.value.1;
    }
    assert ret + [] == ret;
    return Success(ret);
  }

  lemma PrependElemsAssoc(a: seq<Value>, b: seq<Value>, r: Result<seq<Value>, Error>)
    ensures PrependElems(a, PrependElems(b, r)) == PrependElems(a + b, r)
  {
    if r.Success? {
      assert a + (b + r.value) == a + b + r.value;
    }
  }

  /** One turn of the element loop: the element read from `rest` joins the
      ones read so far, or its error ends the decoding. */
  lemma ReadElemsStep(elem: Schema, buf: Bytes, strict: bool, ret: seq<Value>, rest: Bytes)
    requires rest != []
    requires ReadElems(elem, buf, strict) == PrependElems(ret, ReadElems(elem, rest, strict))
    ensures var read := Read(elem, rest, strict);
            if read.Failure? then ReadElems(elem, buf, strict) == Failure(read.error)
            else ReadElems(elem, buf, strict)
                 == PrependElems(ret + [read.value.0], ReadElems(elem, read.value.1, strict))
  {
    var read := Read(elem, rest, strict);
    if read.Success? {
      var tail := ReadElems(elem, read.value.1, strict);
      assert ReadElems(elem, rest, strict) == PrependElems([read.value.0], tail);
      PrependElemsAssoc(ret, [read.value.0], tail);
    }
  }

  // Sequence._decode_value.

  function PrependFields(pre: seq<Option<Value>>, r: Result<(seq<Option<Value>>, Bytes), Error>)
    : Result<(seq<Option<Value>>, Bytes), Error>
  {
    if r.Success? then Success((pre + r.value.0, r.value.1)) else Failure(r.error)
  }

  lemma PrependFieldsAssoc(a: seq<Option<Value>>, b: seq<Option<Value>>,
                           r: Result<(seq<Option<Value>>, Bytes), Error>)
    ensures PrependFields(a, PrependFields(b, r)) == PrependFields(a + b, r)
  {
    if r.Success? {
      assert a + (b + r.value.0) == a + b + r.value.0;
    }
  }

  /** One turn of the first pass: component i read from `rest`, giving the
      field `next` and the bytes after it, or ending the pass with an error. */
  lemma ReadFieldsStep(s: Schema, buf: Bytes, strict: bool, i: nat,
                       ret: seq<Option<Value>>, rest: Bytes)
    requires s.kind.SequenceK? && i < |s.kind.comps|
    requires ReadFields(s, buf, strict, 0) == PrependFields(ret, ReadFields(s, rest, strict, i))
    ensures var c := s.kind.comps[i];
            var read := Read(c.schema, rest, strict);
            if read.Failure? && read.error == TagMismatch && c.optional then
              ReadFields(s, buf, strict, 0) == PrependFields(ret + [c.default], ReadFields(s, rest, strict, i + 1))
            else if read.Failure? then
              ReadFields(s, buf, strict, 0) == Failure(read.error)
            else
              ReadFields(s, buf, strict, 0)
              == PrependFields(ret + [Some(read.value.0)], ReadFields(s, read.value.1, strict, i + 1))
  {
    var c := s.kind.comps[i];
    var read := Read(c.schema, rest, strict);
    if read.Failure? && read.error == TagMismatch && c.optional {
      PrependFieldsAssoc(ret, [c.default], ReadFields(s, rest, strict, i + 1));
    } else if read.Success? {
      PrependFieldsAssoc(ret, [Some(read.value.0)], ReadFields(s, read.value.1, strict, i + 1));
    }
  }

  /** The first pass of Sequence._decode_value: components in schema order,
      a tag error on an optional one recording its default. */
  method ReadComponents(s: Schema, buf: Bytes, strict: bool) returns (r: Result<(seq<Option<Value>>, Bytes), Error>)
    requires s.kind.SequenceK?
    ensures r == ReadFields(s, buf, strict, 0)
  {
    var comps := s.kind.comps;
    var ret: seq<Option<Value>> := [];
    var rest := buf;
    assert PrependFields([], ReadFields(s, buf, strict, 0)) == ReadFields(s, buf, strict, 0) by {
      var whole := ReadFields(s, buf, strict, 0);
      assert whole.Success? ==> [] + whole.value.0 == whole.value.0;
    }
    for i := 0 to |comps|
      invariant ReadFields(s, buf, strict, 0) == PrependFields(ret, ReadFields(s, rest, strict, i))
    {
      ReadFieldsStep(s, buf, strict, i, ret, rest);
      var c := comps[i];
      var read := Read(c.schema, rest, strict);
      var next: Option<Value>;
      if read.Failure? {
        if read.error == TagMismatch && c.optional {
          next := c.default;
        } else {
          return Failure(read.error);
        }
      } else {
        next := Some(read.value.0);
        rest := read.value.1;
      }
      ret := ret + [next];
    }
    assert ret + [] == ret;
    return Success((ret, rest));
  }

  /** The second pass of Sequence._decode_value: decode each defined-by Any
      that is present against the type its selector's value finds in the
      lookup. */
  method ResolveComponents(s: Schema, fields: seq<Option<Value>>, strict: bool)
    returns (r: Result<seq<Option<Value>>, Error>)
    requires s.kind.SequenceK? && |fields| == |s.kind.comps|
    ensures r == ResolveDefinedBy(s, fields, strict, 0)
  {
    var comps := s.kind.comps;
    var ret := fields;
    for i := 0 to |comps|
      invariant |ret| == |comps|
      invariant ResolveDefinedBy(s, fields, strict, 0) == ResolveDefinedBy(s, ret, strict, i)
    {
      var c := comps[i];
      if c.definedBy.Some? {
        var db := c.definedBy.value;
        var sel := IndexOfName(comps, db.selector);
        if sel.None? {
          return Failure(SchemaError);
        }
        var k := FindLookup(db.lookup, ret[sel.value]);
        if k.Some? && ret[i].Some? {
          if !ret[i].value.AnyV? {
            return Failure(SchemaError);
          }
          var raw := ret[i].value.raw;
          var inner := Decode(db.lookup[k.value].schema, raw, strict);
          if inner.Success? {
            ret := ret[i := Some(AnyV(raw, Some(inner.value)))];
          } else if strict || !IsAsn1Error(inner.error) {
            return Failure(inner.error);
          }
        }
      }
    }
    return Success(ret);
  }

  /** Sequence._decode_value: both passes, with leftover bytes after the last
      component refused in between. */
  method DecodeSequence(s: Schema, buf: Bytes, strict: bool) returns (r: Result<Value, Error>)
    requires s.kind.SequenceK?
    ensures r == DecodeContent(s, buf, strict)
  {
    var first := ReadComponents(s, buf, strict);
    if first.Failure? {
      return Failure(first.error);
    }
    var (fields, rest) := first.value;
    if rest != [] {
      return Failure(Malformed);
    }
    var second := ResolveComponents(s, fields, strict);
    if second.Failure? {
      return Failure(second.error);
    }
    return Success(RecordV(second.value));
  }
}
