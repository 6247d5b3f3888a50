/** Integer and length primitives (X.690 sections 8.3.2, 8.1.3.4 and 8.1.3.5):
    minimal two's-complement or unsigned big-endian integers, and definite
    lengths in the short or the long form. */
module Integers {
  import opened Wrappers
  import opened Errors

  type Byte = b: int | 0 <= b < 256
  type Bytes = seq<Byte>

  /** The bytes that encode_int's loop produces: it appends the low byte and
      shifts right by 8 until the value is 0 or -1. Dafny's `/` and `%` by 256
      are Python's `>> 8` and `& 0xff`, for negative values too. The result is
      big-endian. */
  function Digits(v: int): Bytes
    decreases if v < 0 then -v else v
  {
    if v == 0 || v == -1 then [] else Digits(v / 256) + [v % 256]
  }

  /** -1 for a negative value, 0 otherwise: what encode_int's shifting ends with. */
  function SignOf(v: int): int {
    if v < 0 then -1 else 0
  }

  /** encode_int(value, signed). */
  function IntOctets(value: int, signed: bool): (r: Result<Bytes, Error>)
    ensures r.Success? <==> signed || value >= 0
    ensures r.Failure? ==> r.error == InvalidArgument
    ensures r.Success? ==> |r.value| > 0
  {
    if !signed && value < 0 then Failure(InvalidArgument)
    else if value == 0 then Success([0])
    else if value == -1 then Success([255])
    else
      DigitsNonEmpty(value);
      var d := Digits(value);
      if signed && value < 0 && d[0] <= 127 then Success([255] + d)
      else if signed && value >= 0 && d[0] > 127 then Success([0] + d)
      else Success(d)
  }

  /** What decode_int's loop computes: starting from `acc`, shift in each byte. */
  function Accumulate(acc: int, bs: Bytes): int
    decreases |bs|
  {
    if bs == [] then acc else Accumulate(acc * 256 + bs[0], bs[1..])
  }

  /** The encodings decode_int accepts: not empty, no redundant leading 0x00
      and, when signed, no redundant leading 0xFF. */
  predicate MinimalOctets(buf: Bytes, signed: bool) {
    && |buf| > 0
    && !(|buf| > 1 && buf[0] == 0 && buf[1] < 128)
    && !(signed && |buf| > 1 && buf[0] == 255 && buf[1] >= 128)
  }

  /** decode_int(buf, signed). The minimality checks are not gated by strict mode. */
  function OctetsToInt(buf: Bytes, signed: bool): (r: Result<int, Error>)
    ensures r.Success? <==> MinimalOctets(buf, signed)
    ensures r.Failure? ==> r.error == Malformed
    ensures r.Success? && !signed ==> r.value >= 0
  {
    if |buf| == 0 then Failure(Malformed)
    else if |buf| > 1 && buf[0] == 0 && buf[1] < 128 then Failure(Malformed)
    else if signed && |buf| > 1 && buf[0] == 255 && buf[1] >= 128 then Failure(Malformed)
    else
      AccumulateNonNegative(buf[0], buf[1..]);
      var lead: int := if signed && buf[0] > 127 then buf[0] as int - 256 else buf[0];
      Success(Accumulate(lead, buf[1..]))
  }

  function Reverse(s: Bytes): (r: Bytes)
    ensures |r| == |s|
  {
    if s == [] then [] else [s[|s| - 1]] + Reverse(s[..|s| - 1])
  }

  lemma ReverseSnoc(s: Bytes, b: Byte)
    ensures Reverse(s + [b]) == [b] + Reverse(s)
  {
    assert (s + [b])[..|s|] == s;
  }

  lemma DigitsNonEmpty(v: int)
    requires v != 0 && v != -1
    ensures |Digits(v)| > 0
  {
  }

  /** One turn of encode_int's loop: the low byte is the last digit, and the
      shifted value keeps the sign and is closer to 0 or -1. */
  lemma DigitsStep(v: int)
    requires v != 0 && v != -1
    ensures Digits(v) == Digits(v / 256) + [v % 256]
    ensures (v / 256 < 0) == (v < 0)
    ensures (if v / 256 < 0 then -(v / 256) else v / 256) < (if v < 0 then -v else v)
  {
  }

  lemma {:induction false} AccumulateNonNegative(acc: int, bs: Bytes)
    requires acc >= 0
    ensures Accumulate(acc, bs) >= 0
    decreases |bs|
  {
    if bs != [] {
      AccumulateNonNegative(acc * 256 + bs[0], bs[1..]);
    }
  }

  lemma {:induction false} AccumulateSnoc(acc: int, bs: Bytes, b: Byte)
    ensures Accumulate(acc, bs + [b]) == Accumulate(acc, bs) * 256 + b
    decreases |bs|
  {
    if bs == [] {
      assert Accumulate(acc, [b]) == Accumulate(acc * 256 + b, []);
    } else {
      assert (bs + [b])[1..] == bs[1..] + [b];
      AccumulateSnoc(acc * 256 + bs[0], bs[1..], b);
    }
  }

  /** Shifting the digits back in, starting from the sign, gives the value back. */
  lemma {:induction false} DigitsValue(v: int)
    requires v != 0 && v != -1
    ensures |Digits(v)| > 0
    ensures Accumulate(SignOf(v), Digits(v)) == v
    ensures v > 0 ==> Digits(v)[0] != 0
    ensures v < 0 ==> Digits(v)[0] != 255
    decreases if v < 0 then -v else v
  {
    var q, b := v / 256, v % 256;
    assert q * 256 + b == v;
    assert v > 0 ==> q >= 0;
    assert v < 0 ==> q < 0;
    if q == 0 || q == -1 {
      assert Digits(v) == [b];
      assert SignOf(v) == q;
      assert Accumulate(q, [b]) == Accumulate(q * 256 + b, []);
    } else {
      DigitsValue(q);
      assert SignOf(q) == SignOf(v);
      AccumulateSnoc(SignOf(v), Digits(q), b);
      assert Digits(v)[0] == Digits(q)[0];
    }
  }

  /** encode_int's output is minimal, and decode_int inverts it:
      decode_int(encode_int(v, s), s) == v. */
  lemma IntRoundTrip(value: int, signed: bool)
    requires signed || value >= 0
    ensures MinimalOctets(IntOctets(value, signed).value, signed)
    ensures OctetsToInt(IntOctets(value, signed).value, signed) == Success(value)
  {
    if value != 0 && value != -1 {
      DigitsValue(value);
      var d := Digits(value);
      assert Accumulate(SignOf(value), d) == Accumulate(SignOf(value) * 256 + d[0], d[1..]);
      if signed && value < 0 && d[0] <= 127 {
        assert ([255] + d)[1..] == d;
      } else if signed && value >= 0 && d[0] > 127 {
        assert ([0] + d)[1..] == d;
      }
    }
  }

  /** The two one-byte special cases of encode_int. */
  lemma ZeroAndMinusOne(signed: bool)
    ensures IntOctets(0, signed) == Success([0])
    ensures signed ==> IntOctets(-1, signed) == Success([255])
    ensures !signed ==> IntOctets(-1, signed) == Failure(InvalidArgument)
  {
  }

  /** encode_int, as the loop of the source: collect the low bytes, fix the sign
      with an extra leading byte, then reverse. */
  method EncodeInt(value: int, signed: bool) returns (r: Result<Bytes, Error>)
    ensures r == IntOctets(value, signed)
    ensures r.Success? ==> OctetsToInt(r.value, signed) == Success(value)
  {
    if !signed && value < 0 {
      return Failure(InvalidArgument);
    }
    IntRoundTrip(value, signed);
    if value == 0 {
      return Success([0]);
    }
    if value == -1 {
      return Success([255]);
    }
    var v := value;
    var little: Bytes := [];
    while v != 0 && v != -1
      invariant Digits(value) == Digits(v) + Reverse(little)
      invariant (v < 0) == (value < 0)
      invariant little == [] ==> v == value
      decreases if v < 0 then -v else v
    {
      EncodeIntStep(value, v, little);
      little := little + [v % 256];
      v := v / 256;
    }
    SignFix(value, signed, v, little);
    if signed {
      if v == -1 && little[|little| - 1] <= 127 {
        little := little + [255];
      } else if v == 0 && little[|little| - 1] > 127 {
        little := little + [0];
      }
    }
    r := Success(Reverse(little));
  }

  /** One turn of the loop of encode_int: the low byte of `v` joins the
      collected ones, and `v` shifts right by 8. */
  lemma EncodeIntStep(value: int, v: int, little: Bytes)
    requires v != 0 && v != -1 && (v < 0) == (value < 0)
    requires Digits(value) == Digits(v) + Reverse(little)
    ensures Digits(value) == Digits(v / 256) + Reverse(little + [v % 256])
    ensures (v / 256 < 0) == (value < 0)
    ensures (if v / 256 < 0 then -(v / 256) else v / 256) < (if v < 0 then -v else v)
  {
    DigitsStep(v);
    ReverseSnoc(little, v % 256);
  }

  /** After the loop of encode_int: the sign-fixing byte, then the reversal,
      give IntOctets. */
  lemma SignFix(value: int, signed: bool, v: int, little: Bytes)
    requires signed || value >= 0
    requires value != 0 && value != -1 && (v == 0 || v == -1) && (v < 0) == (value < 0)
    requires Digits(value) == Digits(v) + Reverse(little)
    ensures |little| > 0
    ensures var last := little[|little| - 1];
            var fixed := if signed && v == -1 && last <= 127 then little + [255]
                         else if signed && v == 0 && last > 127 then little + [0]
                         else little;
            IntOctets(value, signed) == Success(Reverse(fixed))
  {
    DigitsNonEmpty(value);
    assert Digits(value) == Reverse(little);
    assert little[|little| - 1] == Digits(value)[0];
    ReverseSnoc(little, 255);
    ReverseSnoc(little, 0);
  }

  /** decode_int, as the loop of the source: take the (sign-adjusted) leading
      byte, then shift in the others. */
  method DecodeInt(buf: Bytes, signed: bool) returns (r: Result<int, Error>)
    ensures r == OctetsToInt(buf, signed)
    ensures r.Success? <==> MinimalOctets(buf, signed)
  {
    if |buf| == 0 {
      return Failure(Malformed);
    }
    var leading: int := buf[0];
    var rest := buf[1..];
    if |rest| > 0 {
      if leading == 0 && rest[0] < 128 {
        return Failure(Malformed);
      } else if signed && leading == 255 && rest[0] >= 128 {
        return Failure(Malformed);
      }
    }
    if signed && leading > 127 {
      leading := leading - 256;
    }
    ghost var start := leading;
    for i := 0 to |rest|
      invariant Accumulate(leading, rest[i..]) == Accumulate(start, rest)
    {
      assert rest[i..][1..] == rest[i + 1..];
      leading := leading * 256 + rest[i];
    }
    assert rest[|rest|..] == [];
    r := Success(leading);
  }

  // Lengths.

  /** The largest count of length octets the long form may announce: X.690
      section 8.1.3.5 c) reserves the initial octet 0xFF. */
  const MaxLengthOctets: nat := 126

  /** encode_length(n): the short form for n <= 127, otherwise 0x80 | k followed
      by the k-byte minimal unsigned encoding of n. A length that would need more
      than MaxLengthOctets octets is refused (see the findings). */
  function EncodeLength(n: nat): (r: Result<Bytes, Error>)
    ensures n <= 127 ==> r == Success([n])
    ensures n > 127 && r.Success? ==>
      var u := IntOctets(n, false).value;
      r.value == [128 + |u|] + u && 0 < |u| <= MaxLengthOctets
  {
    if n <= 127 then Success([n])
    else
      var u := IntOctets(n, false).value;
      if |u| > MaxLengthOctets then Failure(InvalidArgument)
      else Success([128 + |u|] + u)
  }

  /** read_length(buf): a definite length and the bytes after it. The long form
      is not required to be minimal, and the initial octet 0x80 (the indefinite
      form) announces zero length octets, which decode_int rejects as empty. */
  function ReadLength(buf: Bytes): (r: Result<(nat, Bytes), Error>)
    ensures |buf| == 0 ==> r == Failure(Malformed)
    ensures |buf| > 0 && buf[0] == 128 ==> r == Failure(Malformed)
    ensures |buf| > 0 && buf[0] > 128 && |buf| - 1 < buf[0] - 128 ==> r == Failure(Malformed)
    ensures r.Failure? ==> r.error == Malformed
    ensures r.Success? ==> |r.value.1| < |buf|
  {
    if |buf| == 0 then Failure(Malformed)
    else if buf[0] <= 127 then Success((buf[0], buf[1..]))
    else
      var k := buf[0] - 128;
      var rest := buf[1..];
      if |rest| < k then Failure(Malformed)
      else
        var n :- OctetsToInt(rest[..k], false);
        Success((n, rest[k..]))
  }

  /** read_length(encode_length(n) ++ r) == (n, r). */
  lemma LengthRoundTrip(n: nat, h: Bytes, rest: Bytes)
    requires EncodeLength(n) == Success(h)
    ensures ReadLength(h + rest) == Success((n, rest))
  {
    if n > 127 {
      var u := IntOctets(n, false).value;
      IntRoundTrip(n, false);
      assert (h + rest)[1..] == u + rest;
      assert (u + rest)[..|u|] == u;
      assert (u + rest)[|u|..] == rest;
    }
  }

  /** The long form is accepted even where the short form was required:
      0x81 0x05 reads as the length 5 although DER demands the single byte 0x05,
      and a leading zero octet is accepted before an octet of 0x80 or more,
      where decode_int needs it. Before an octet below 0x80 decode_int refuses
      the zero octet, so 0x82 0x00 0x05 is malformed. */
  lemma NonMinimalLengthAccepted()
    ensures ReadLength([0x81, 0x05]) == Success((5, []))
    ensures ReadLength([0x82, 0x00, 0xC8]) == Success((200, []))
    ensures ReadLength([0x82, 0x00, 0x05]) == Failure(Malformed)
  {
    var c: Bytes := [0x82, 0x00, 0x05];
    assert c[1..][..2] == [0x00, 0x05];
    assert [0x81, 0x05][1..][..1] == [5];
    assert Accumulate(5, []) == 5;
    var b: Bytes := [0x82, 0x00, 0xC8];
    assert b[1..][..2] == [0x00, 0xC8];
    assert Accumulate(0, [0xC8]) == Accumulate(200, []);
  }
}
