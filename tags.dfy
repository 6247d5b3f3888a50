/** Tags and their identifier octets. The tag token itself lives in tag.py,
    which is not part of this model; here a tag is encoded in the low-tag-number
    form of X.690 section 8.1.2 (one octet: class, constructed bit, number < 31). */
module Tags {
  import opened Wrappers
  import opened Errors
  import opened Integers

  datatype TagClass = Universal | Application | ContextSpecific | Private

  type TagNumber = n: nat | n < 31

  datatype Tag = Tag(cls: TagClass, constructed: bool, number: TagNumber)

  function ClassBits(c: TagClass): (r: nat)
    ensures r < 4
  {
    match c
    case Universal => 0
    case Application => 1
    case ContextSpecific => 2
    case Private => 3
  }

  function ClassOf(bits: nat): TagClass
    requires bits < 4
  {
    if bits == 0 then Universal
    else if bits == 1 then Application
    else if bits == 2 then ContextSpecific
    else Private
  }

  /** The identifier octet of a tag (Tag.value in the source). */
  function TagOctet(t: Tag): (b: Byte)
    ensures b % 32 == t.number && b % 32 != 31
  {
    ClassBits(t.cls) * 64 + (if t.constructed then 32 else 0) + t.number
  }

  /** Tag.read: one identifier octet. A high-tag-number first octet (low five
      bits all set) is malformed. An empty buffer holds no tag at all: like the
      tagged path of Abstract.read, which compares an empty prefix with the
      expected tag, it is a tag error, so that an absent optional component at
      the end of a Sequence is read as absent. */
  function ReadTag(buf: Bytes): (r: Result<(Tag, Bytes), Error>)
    ensures r.Success? <==> |buf| > 0 && buf[0] % 32 != 31
    ensures r.Success? ==> TagOctet(r.value.0) == buf[0] && r.value.1 == buf[1..]
    ensures r.Failure? ==> r.error == (if buf == [] then TagMismatch else Malformed)
  {
    if |buf| == 0 then Failure(TagMismatch)
    else if buf[0] % 32 == 31 then Failure(Malformed)
    else
      var t := Tag(ClassOf(buf[0] / 64), (buf[0] / 32) % 2 == 1, buf[0] % 32);
      assert TagOctet(t) == buf[0] by {
        assert buf[0] == (buf[0] / 64) * 64 + ((buf[0] / 32) % 2) * 32 + buf[0] % 32;
      }
      Success((t, buf[1..]))
  }

  /** Reading an identifier octet gives back the tag that produced it. */
  lemma ReadTagOctet(t: Tag, rest: Bytes)
    ensures ReadTag([TagOctet(t)] + rest) == Success((t, rest))
  {
    var b := TagOctet(t);
    var c := if t.constructed then 32 else 0;
    assert b / 64 == ClassBits(t.cls);
    assert (b / 32) % 2 == c / 32;
    assert ([b] + rest)[1..] == rest;
  }

  /** Distinct tags have distinct identifier octets, so comparing octets on the
      wire compares tags. */
  lemma TagOctetInjective(s: Tag, t: Tag)
    requires TagOctet(s) == TagOctet(t)
    ensures s == t
  {
    ReadTagOctet(s, []);
    ReadTagOctet(t, []);
  }
}
