/** Properties of the TLV framing of Abstract.encode / read / decode. */
module Framing {
  import opened Wrappers
  import opened Errors
  import opened Integers
  import opened Tags
  import opened Schemas
  import opened Codec

  /** Reading the headers that Frame wrote gives back the contents and leaves
      whatever followed untouched. */
  lemma {:induction false} FrameRoundTrip(tags: seq<Tag>, content: Bytes, e: Bytes, rest: Bytes)
    requires tags != [] && Frame(tags, content) == Success(e)
    ensures ReadFrame(tags, e + rest) == Success((content, rest))
    decreases |tags|
  {
    var init, t := tags[..|tags| - 1], tags[|tags| - 1];
    var inner := Frame(init, content).value;
    var h := EncodeLength(|inner|).value;
    assert e == [TagOctet(t)] + h + inner;
    assert (e + rest)[1..] == h + (inner + rest);
    LengthRoundTrip(|inner|, h, inner + rest);
    if |tags| == 1 {
      assert inner == content;
      assert (inner + rest)[..|inner|] == content;
      assert (inner + rest)[|inner|..] == rest;
    } else {
      FrameRoundTrip(init, content, inner, rest);
    }
  }

  /** The tag-length header of a framed encoding, as PeekTLV sees it: the
      outer tag, and a TLV that spans the whole encoding. */
  lemma PeekFramed(tags: seq<Tag>, content: Bytes, e: Bytes, rest: Bytes)
    requires tags != [] && Frame(tags, content) == Success(e)
    ensures PeekTLV(e + rest).Success?
    ensures PeekTLV(e + rest).value.tag == tags[|tags| - 1]
    ensures PeekTLV(e + rest).value.total == |e|
    ensures (e + rest)[PeekTLV(e + rest).value.header..|e|] == Frame(tags[..|tags| - 1], content).value
  {
    var t := tags[|tags| - 1];
    var inner := Frame(tags[..|tags| - 1], content).value;
    var h := EncodeLength(|inner|).value;
    assert e == [TagOctet(t)] + h + inner;
    ReadTagOctet(t, h + inner + rest);
    assert e + rest == [TagOctet(t)] + (h + inner + rest);
    LengthRoundTrip(|inner|, h, inner + rest);
    assert h + inner + rest == h + (inner + rest);
    assert (e + rest)[1 + |h|..|e|] == inner;
  }

  lemma ReadLengthExtend(buf: Bytes, extra: Bytes)
    requires ReadLength(buf).Success?
    ensures ReadLength(buf + extra)
            == Success((ReadLength(buf).value.0, ReadLength(buf).value.1 + extra))
  {
    assert (buf + extra)[1..] == buf[1..] + extra;
    if buf[0] > 127 {
      var k := buf[0] - 128;
      var rest := buf[1..];
      assert (rest + extra)[..k] == rest[..k];
      assert (rest + extra)[k..] == rest[k..] + extra;
    }
  }

  /** What follows a TLV does not change how PeekTLV reads it. */
  lemma PeekExtend(buf: Bytes, extra: Bytes)
    requires PeekTLV(buf).Success?
    ensures PeekTLV(buf + extra) == PeekTLV(buf)
  {
    var (t, afterTag) := ReadTag(buf).value;
    assert (buf + extra)[1..] == afterTag + extra;
    ReadLengthExtend(afterTag, extra);
  }

  /** One step of ReadFrame once the outermost tag and length have been read. */
  lemma ReadFrameStep(tags: seq<Tag>, buf: Bytes, len: nat, after: Bytes)
    requires tags != [] && |buf| > 0 && buf[0] == TagOctet(tags[|tags| - 1])
    requires ReadLength(buf[1..]) == Success((len, after)) && len <= |after|
    ensures |tags| == 1 ==> ReadFrame(tags, buf) == Success((after[..len], after[len..]))
    ensures |tags| > 1 ==> ReadFrame(tags, buf) == ReadFrame(tags[..|tags| - 1], after)
  {
  }

  /** The outer tag and length of a frame read the same with bytes after it. */
  lemma ReadFrameHeadExtend(tags: seq<Tag>, buf: Bytes, extra: Bytes)
    requires tags != [] && ReadFrame(tags, buf).Success?
    ensures |buf| > 0 && buf[0] == TagOctet(tags[|tags| - 1]) && ReadLength(buf[1..]).Success?
    ensures ReadLength(buf[1..]).value.0 <= |ReadLength(buf[1..]).value.1|
    ensures |buf + extra| > 0 && (buf + extra)[0] == buf[0]
    ensures ReadLength((buf + extra)[1..])
            == Success((ReadLength(buf[1..]).value.0, ReadLength(buf[1..]).value.1 + extra))
  {
    assert (buf + extra)[1..] == buf[1..] + extra;
    ReadLengthExtend(buf[1..], extra);
  }

  lemma {:induction false} ReadFrameExtend(tags: seq<Tag>, buf: Bytes, extra: Bytes)
    requires tags != [] && ReadFrame(tags, buf).Success?
    ensures ReadFrame(tags, buf + extra)
            == Success((ReadFrame(tags, buf).value.0, ReadFrame(tags, buf).value.1 + extra))
    decreases |tags|
  {
    ReadFrameHeadExtend(tags, buf, extra);
    var (len, after) := ReadLength(buf[1..]).value;
    ReadFrameStep(tags, buf, len, after);
    ReadFrameStep(tags, buf + extra, len, after + extra);
    if |tags| == 1 {
      SliceExtend(after, extra, len);
    } else {
      ReadFrameExtend(tags[..|tags| - 1], after, extra);
    }
  }

  lemma SliceExtend(s: Bytes, extra: Bytes, n: nat)
    requires n <= |s|
    ensures (s + extra)[..n] == s[..n] && (s + extra)[n..] == s[n..] + extra
  {
  }

  /** Abstract.read is self-delimiting: bytes after what it reads do not
      change the value, and come back as part of the rest. */
  lemma ReadExtend(s: Schema, buf: Bytes, extra: Bytes, strict: bool)
    requires Read(s, buf, strict).Success?
    ensures Read(s, buf + extra, strict)
            == Success((Read(s, buf, strict).value.0, Read(s, buf, strict).value.1 + extra))
  {
    if s.tags != [] {
      ReadFrameExtend(s.tags, buf, extra);
    } else {
      PeekExtend(buf, extra);
      var h := PeekTLV(buf).value;
      assert (buf + extra)[..h.total] == buf[..h.total];
      assert (buf + extra)[h.header..h.total] == buf[h.header..h.total];
      assert (buf + extra)[h.total..] == buf[h.total..] + extra;
    }
  }

  /** Abstract.decode refuses leftover bytes: once a value has been read in
      full, any byte after it makes decoding fail as malformed. */
  lemma DecodeRejectsTrailing(s: Schema, buf: Bytes, extra: Bytes, strict: bool)
    requires Read(s, buf, strict).Success? && Read(s, buf, strict).value.1 == []
    requires extra != []
    ensures Decode(s, buf, strict) == Success(Read(s, buf, strict).value.0)
    ensures Decode(s, buf + extra, strict) == Failure(Malformed)
  {
    ReadExtend(s, buf, extra, strict);
    assert [] + extra == extra;
  }

  /** [0] EXPLICIT INTEGER: the schema of the witness in OuterLengthNotMatched. */
  const ExplicitInteger: Schema :=
    Schema([Tag(Universal, false, 2), Tag(ContextSpecific, true, 0)], IntK)

  /** Reading the headers of [0] EXPLICIT INTEGER around 02 01 05, with an
      outer length octet of 1 or 3: the frame step of OuterLengthNotMatched. */
  lemma ExplicitIntegerFrame(outer: Byte)
    requires outer == 1 || outer == 3
    ensures ReadFrame(ExplicitInteger.tags, [0xA0, outer, 0x02, 0x01, 0x05]) == Success(([0x05], []))
  {
    var tags := ExplicitInteger.tags;
    var t0, t1 := Tag(Universal, false, 2), Tag(ContextSpecific, true, 0);
    assert TagOctet(t0) == 2 && TagOctet(t1) == 0xA0;
    var buf: Bytes := [0xA0, outer, 0x02, 0x01, 0x05];
    var inner: Bytes := [0x02, 0x01, 0x05];
    assert buf[1..] == [outer] + inner;
    assert ReadLength([outer] + inner) == Success((outer as nat, inner));
    assert tags[..|tags| - 1] == [t0];
    assert inner[1..] == [0x01, 0x05];
    assert ReadLength([0x01, 0x05]) == Success((1, [0x05]));
    assert [0x05][..1] == [0x05] && [0x05][1..] == [];
    assert ReadFrame([t0], inner) == Success(([0x05], []));
  }

  /** Only the innermost length bounds the contents: an explicit tag whose
      length octet says 1 is accepted around a 3-octet INTEGER, so two
      different byte strings decode to the same value. */
  lemma OuterLengthNotMatched(strict: bool)
    ensures Encode(ExplicitInteger, IntV(5)) == Success([0xA0, 0x03, 0x02, 0x01, 0x05])
    ensures Decode(ExplicitInteger, [0xA0, 0x03, 0x02, 0x01, 0x05], strict) == Success(IntV(5))
    ensures Decode(ExplicitInteger, [0xA0, 0x01, 0x02, 0x01, 0x05], strict) == Success(IntV(5))
  {
    var s := ExplicitInteger;
    assert s.tags[..1] == [Tag(Universal, false, 2)];
    assert IntOctets(5, true) == Success([5]) by {
      assert Digits(0) == [];
      assert Digits(5) == [5];
      assert IntOctets(5, true) == Success(Digits(5));
    }
    assert s.tags[..1][..0] == [];
    var t0, t1 := Tag(Universal, false, 2), Tag(ContextSpecific, true, 0);
    assert TagOctet(t0) == 2 && TagOctet(t1) == 0xA0;
    assert Wrap(t0, [5]) == Success([0x02, 0x01, 0x05]) by {
      assert EncodeLength(1) == Success([1]);
      assert [TagOctet(t0)] + [1] + [5] == [0x02, 0x01, 0x05];
    }
    assert Frame(s.tags[..1], [5]) == Success([0x02, 0x01, 0x05]) by {
      assert Frame(s.tags[..1][..0], [5]) == Success([5]);
    }
    assert Wrap(t1, [0x02, 0x01, 0x05]) == Success([0xA0, 0x03, 0x02, 0x01, 0x05]) by {
      assert EncodeLength(3) == Success([3]);
      assert [TagOctet(t1)] + [3] + [0x02, 0x01, 0x05] == [0xA0, 0x03, 0x02, 0x01, 0x05];
    }
    assert Encode(s, IntV(5)) == Frame(s.tags, [5]);
    assert OctetsToInt([5], true) == Success(5) by {
      assert Accumulate(5, []) == 5;
    }
    ExplicitIntegerFrame(1);
    ExplicitIntegerFrame(3);
  }

  // What is left over is always the tail of the input.

  /** read_length leaves a suffix of its input. */
  lemma ReadLengthSuffix(buf: Bytes)
    requires ReadLength(buf).Success?
    ensures var rest := ReadLength(buf).value.1;
            rest == buf[|buf| - |rest|..]
  {
    if buf[0] > 127 {
      var k := buf[0] - 128;
      assert buf[1..][k..] == buf[1 + k..];
    }
  }

  /** The contents and the rest of a frame are, together, a suffix of the input. */
  lemma {:induction false} ReadFrameSuffix(tags: seq<Tag>, buf: Bytes)
    requires tags != [] && ReadFrame(tags, buf).Success?
    ensures var (content, rest) := ReadFrame(tags, buf).value;
            content + rest == buf[|buf| - |content| - |rest|..]
    decreases |tags|
  {
    var (len, after) := ReadLength(buf[1..]).value;
    ReadLengthSuffix(buf[1..]);
    assert after == buf[|buf| - |after|..];
    ReadFrameStep(tags, buf, len, after);
    if |tags| == 1 {
      assert after[..len] + after[len..] == after;
    } else {
      ReadFrameSuffix(tags[..|tags| - 1], after);
      var (content, rest) := ReadFrame(tags, buf).value;
      assert after[|after| - |content| - |rest|..] == buf[|buf| - |content| - |rest|..];
    }
  }

  /** Abstract.read leaves a suffix of its input. */
  lemma ReadSuffix(s: Schema, buf: Bytes, strict: bool)
    requires Read(s, buf, strict).Success?
    ensures var rest := Read(s, buf, strict).value.1;
            rest == buf[|buf| - |rest|..]
  {
    if s.tags != [] {
      var (content, rest) := ReadFrame(s.tags, buf).value;
      assert Read(s, buf, strict).value.1 == rest;
      ReadFrameSuffix(s.tags, buf);
      SuffixOfSuffix(buf, content + rest, rest);
    } else {
      var h := PeekTLV(buf).value;
      assert Read(s, buf, strict).value.1 == buf[h.total..];
    }
  }

  lemma SuffixOfSuffix(buf: Bytes, after: Bytes, rest: Bytes)
    requires |after| <= |buf| && after == buf[|buf| - |after|..]
    requires |rest| <= |after| && rest == after[|after| - |rest|..]
    ensures rest == buf[|buf| - |rest|..]
  {
  }

  /** The first pass of Sequence decoding leaves a suffix of its input. */
  lemma {:induction false} ReadFieldsSuffix(s: Schema, buf: Bytes, strict: bool, i: nat)
    requires s.kind.SequenceK? && i <= |s.kind.comps|
    requires ReadFields(s, buf, strict, i).Success?
    ensures var rest := ReadFields(s, buf, strict, i).value.1;
            rest == buf[|buf| - |rest|..]
    decreases |s.kind.comps| - i
  {
    if i < |s.kind.comps| {
      var c := s.kind.comps[i];
      var read := Read(c.schema, buf, strict);
      if read.Success? {
        var after := read.value.1;
        ReadSuffix(c.schema, buf, strict);
        ReadFieldsSuffix(s, after, strict, i + 1);
        SuffixOfSuffix(buf, after, ReadFields(s, after, strict, i + 1).value.1);
      } else {
        ReadFieldsSuffix(s, buf, strict, i + 1);
      }
    }
  }
}
