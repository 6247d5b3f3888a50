/** The contents of the scalar kinds: Boolean (X.690 sections 8.2 and 11.1)
    and BitString (X.690 sections 8.6.2 and 11.2.1). Integer contents are
    Integers.IntOctets / Integers.OctetsToInt; the string kinds keep their
    bytes verbatim. */
module Scalars {
  import opened Wrappers
  import opened Errors
  import opened Integers
  import opened Schemas

  // Boolean.

  /** Boolean._encode_value: 0xFF for true, 0x00 for false. */
  function BoolOctets(b: bool): (r: Bytes)
    ensures |r| == 1 && (r[0] == 0xFF || r[0] == 0x00)
  {
    if b then [0xFF] else [0x00]
  }

  /** Boolean._decode_value: exactly one byte; 0x00 is false and anything else
      true, but strict mode accepts only 0xFF and 0x00. */
  function DecodeBool(buf: Bytes, strict: bool): (r: Result<bool, Error>)
    ensures r.Success? <==> |buf| == 1 && (!strict || buf[0] == 0xFF || buf[0] == 0x00)
    ensures r.Failure? ==> r.error == Malformed
  {
    if |buf| != 1 then Failure(Malformed)
    else if strict && buf[0] != 0xFF && buf[0] != 0x00 then Failure(Malformed)
    else Success(buf[0] != 0x00)
  }

  /** Decoding an encoded Boolean gives it back, in either mode. */
  lemma BoolRoundTrip(b: bool, strict: bool)
    ensures DecodeBool(BoolOctets(b), strict) == Success(b)
  {
  }

  /** Strict decoding accepts only the DER encodings, so re-encoding what it
      accepted reproduces the input; lenient decoding reads any other
      non-zero byte as true. */
  lemma BoolDecodeCanonical(buf: Bytes, strict: bool)
    requires DecodeBool(buf, strict).Success?
    ensures strict ==> BoolOctets(DecodeBool(buf, strict).value) == buf
    ensures DecodeBool(buf, strict).value <==> buf[0] != 0x00
  {
  }

  // Bit strings.

  function Pow2(k: nat): (r: nat)
    ensures r > 0
  {
    if k == 0 then 1 else 2 * Pow2(k - 1)
  }

  /** The k low bits of n, most significant first: format(n, "08b") for k = 8. */
  function BitsOf(n: nat, k: nat): (r: seq<Bit>)
    ensures |r| == k
  {
    if k == 0 then [] else BitsOf(n / 2, k - 1) + [n % 2]
  }

  /** int(bits, 2). */
  function FromBits(bs: seq<Bit>): nat {
    if bs == [] then 0 else FromBits(bs[..|bs| - 1]) * 2 + bs[|bs| - 1]
  }

  function Zeros(k: nat): (r: seq<Bit>)
    ensures |r| == k && forall i :: 0 <= i < k ==> r[i] == 0
  {
    if k == 0 then [] else Zeros(k - 1) + [0]
  }

  /** The number of padding bits that complete a bit string to whole octets. */
  function PadCount(n: nat): (r: nat)
    ensures r < 8 && (n + r) % 8 == 0
  {
    (8 - n % 8) % 8
  }

  /** Octets of a bit string whose length is a multiple of 8, high bit first. */
  function Pack(bits: seq<Bit>): (r: Bytes)
    requires |bits| % 8 == 0
    ensures |r| * 8 == |bits|
  {
    if bits == [] then []
    else
      FromBitsBound(bits[..8]);
      [FromBits(bits[..8])] + Pack(bits[8..])
  }

  /** All the bits of some octets: "".join(format(b, "08b") for b in octets). */
  function Unpack(octets: Bytes): (r: seq<Bit>)
    ensures |r| == 8 * |octets|
  {
    if octets == [] then [] else BitsOf(octets[0], 8) + Unpack(octets[1..])
  }

  /** BitString._encode_value: the pad count, then the bits completed with
      zeros and packed. */
  function BitStringOctets(bits: seq<Bit>): (r: Bytes)
    ensures |r| > 0 && r[0] == PadCount(|bits|)
  {
    var pad := PadCount(|bits|);
    [pad] + Pack(bits + Zeros(pad))
  }

  predicate AllZero(bs: seq<Bit>) {
    forall i :: 0 <= i < |bs| ==> bs[i] == 0
  }

  /** BitString._decode_value: the pad count must be at most 7, and when it is
      not zero there must be content whose last `pad` bits are all zero.
      Whatever it accepts is the DER encoding of the result. */
  function DecodeBits(buf: Bytes): (r: Result<seq<Bit>, Error>)
    ensures |buf| == 0 || buf[0] > 7 || (buf[0] > 0 && |buf| == 1) ==> r == Failure(Malformed)
    ensures r.Failure? ==> r.error == Malformed
    ensures r.Success? ==> BitStringOctets(r.value) == buf
  {
    if |buf| == 0 then Failure(Malformed)
    else
      var pad := buf[0];
      if pad > 7 then Failure(Malformed)
      else
        var ret := Unpack(buf[1..]);
        if pad > 0 && (ret == [] || !AllZero(ret[|ret| - pad..])) then Failure(Malformed)
        else
          var bits := ret[..|ret| - pad];
          DecodeBitsCanonical(buf, ret, bits);
          Success(bits)
  }

  lemma DecodeBitsCanonical(buf: Bytes, ret: seq<Bit>, bits: seq<Bit>)
    requires |buf| > 0 && buf[0] <= 7
    requires ret == Unpack(buf[1..])
    requires buf[0] > 0 ==> ret != [] && AllZero(ret[|ret| - buf[0]..])
    requires bits == ret[..|ret| - buf[0]]
    ensures BitStringOctets(bits) == buf
  {
    var pad := buf[0] as nat;
    var octets := buf[1..];
    assert |ret| == 8 * |octets| && |bits| == 8 * |octets| - pad;
    PadCountOf(|octets|, pad);
    ZerosTail(ret, pad);
    PackUnpack(octets);
    assert Pack(bits + Zeros(pad)) == octets;
    assert BitStringOctets(bits) == [pad] + octets;
    assert buf == [buf[0]] + octets;
  }

  lemma PadCountOf(m: nat, pad: nat)
    requires pad <= 7 && pad <= 8 * m
    ensures PadCount(8 * m - pad) == pad
  {
    if pad > 0 {
      assert 8 * m - pad == 8 * (m - 1) + (8 - pad);
    }
  }

  lemma ZerosTail(ret: seq<Bit>, pad: nat)
    requires pad <= |ret|
    requires pad > 0 ==> AllZero(ret[|ret| - pad..])
    ensures ret[..|ret| - pad] + Zeros(pad) == ret
  {
    var z := Zeros(pad);
    forall i | |ret| - pad <= i < |ret|
      ensures ret[i] == z[i - (|ret| - pad)]
    {
      assert ret[|ret| - pad..][i - (|ret| - pad)] == ret[i];
    }
  }

  /** BitString decoding inverts encoding: decode(encode(bits)) == bits. */
  lemma BitStringRoundTrip(bits: seq<Bit>)
    ensures DecodeBits(BitStringOctets(bits)) == Success(bits)
  {
    var pad := PadCount(|bits|);
    var padded := bits + Zeros(pad);
    var enc := BitStringOctets(bits);
    assert enc[1..] == Pack(padded);
    UnpackPack(padded);
    assert padded[|padded| - pad..] == Zeros(pad);
    assert padded[..|padded| - pad] == bits;
  }

  // Bit arithmetic.

  lemma {:induction false} FromBitsBound(bs: seq<Bit>)
    ensures FromBits(bs) < Pow2(|bs|)
    decreases |bs|
  {
    if bs != [] {
      FromBitsBound(bs[..|bs| - 1]);
    }
  }

  lemma {:induction false} FromBitsOf(n: nat, k: nat)
    requires n < Pow2(k)
    ensures FromBits(BitsOf(n, k)) == n
    decreases k
  {
    if k > 0 {
      FromBitsOf(n / 2, k - 1);
      var b := BitsOf(n, k);
      assert b[..|b| - 1] == BitsOf(n / 2, k - 1);
    }
  }

  lemma {:induction false} BitsOfFromBits(bs: seq<Bit>)
    ensures BitsOf(FromBits(bs), |bs|) == bs
    decreases |bs|
  {
    if bs != [] {
      var init, last := bs[..|bs| - 1], bs[|bs| - 1];
      BitsOfFromBits(init);
      var n := FromBits(bs);
      assert n / 2 == FromBits(init) && n % 2 == last;
      assert bs == init + [last];
    }
  }

  lemma {:induction false} UnpackPack(bits: seq<Bit>)
    requires |bits| % 8 == 0
    ensures Unpack(Pack(bits)) == bits
    decreases |bits|
  {
    if bits != [] {
      FromBitsBound(bits[..8]);
      BitsOfFromBits(bits[..8]);
      var p := Pack(bits);
      assert p[1..] == Pack(bits[8..]);
      UnpackPack(bits[8..]);
      assert bits == bits[..8] + bits[8..];
    }
  }

  lemma {:induction false} PackUnpack(octets: Bytes)
    ensures Pack(Unpack(octets)) == octets
    decreases |octets|
  {
    if octets != [] {
      var u := Unpack(octets);
      assert u[..8] == BitsOf(octets[0], 8);
      assert u[8..] == Unpack(octets[1..]);
      FromBitsOf(octets[0], 8);
      PackUnpack(octets[1..]);
      assert octets == [octets[0]] + octets[1..];
    }
  }

  lemma {:induction false} PackAppend(a: seq<Bit>, b: seq<Bit>)
    requires |a| % 8 == 0 && |b| % 8 == 0
    ensures Pack(a + b) == Pack(a) + Pack(b)
    decreases |a|
  {
    if a != [] {
      assert (a + b)[..8] == a[..8];
      assert (a + b)[8..] == a[8..] + b;
      PackAppend(a[8..], b);
    } else {
      assert a + b == b;
    }
  }

  /** BitString._encode_value, as the loop of the source: one octet per eight
      padded bits. */
  method EncodeBitString(bits: seq<Bit>) returns (r: Bytes)
    ensures r == BitStringOctets(bits)
    ensures DecodeBits(r) == Success(bits)
  {
    var pad := (8 - |bits| % 8) % 8;
    var padded := bits + Zeros(pad);
    assert |padded| % 8 == 0;
    r := [pad];
    var i := 0;
    while i < |padded|
      invariant i % 8 == 0 && i <= |padded|
      invariant r == [pad] + Pack(padded[..i])
    {
      MultipleOfEight(i, |padded|);
      var chunk := padded[i..i + 8];
      PackStep(padded, i);
      r := r + [FromBits(chunk)];
      i := i + 8;
    }
    assert padded[..i] == padded;
    BitStringRoundTrip(bits);
  }

  lemma MultipleOfEight(i: nat, n: nat)
    requires i % 8 == 0 && n % 8 == 0 && i < n
    ensures i + 8 <= n
  {
  }

  /** Packing eight more bits appends one octet. */
  lemma PackStep(padded: seq<Bit>, i: nat)
    requires i % 8 == 0 && i + 8 <= |padded|
    ensures FromBits(padded[i..i + 8]) < 256
    ensures Pack(padded[..i + 8]) == Pack(padded[..i]) + [FromBits(padded[i..i + 8])]
  {
    var chunk := padded[i..i + 8];
    FromBitsBound(chunk);
    PackAppend(padded[..i], chunk);
    assert padded[..i + 8] == padded[..i] + chunk;
    assert chunk[..8] == chunk && chunk[8..] == [];
  }

  /** The five bits 10110 encode as pad count 3 and the octet 10110000. */
  lemma FiveBitExample()
    ensures BitStringOctets([1, 0, 1, 1, 0]) == [3, 0xB0]
    ensures DecodeBits([3, 0xB0]) == Success([1, 0, 1, 1, 0])
    ensures DecodeBits([3, 0xB1]).Failure?
  {
    var padded: seq<Bit> := [1, 0, 1, 1, 0] + Zeros(3);
    assert padded == [1, 0, 1, 1, 0, 0, 0, 0];
    assert FromBits(padded) == 0xB0 by {
      var b: seq<Bit> := padded;
      assert FromBits(b[..1]) == 1 by { assert b[..1][..0] == []; }
      assert FromBits(b[..2]) == 2 by { assert b[..2][..1] == b[..1]; }
      assert FromBits(b[..3]) == 5 by { assert b[..3][..2] == b[..2]; }
      assert FromBits(b[..4]) == 11 by { assert b[..4][..3] == b[..3]; }
      assert FromBits(b[..5]) == 22 by { assert b[..5][..4] == b[..4]; }
      assert FromBits(b[..6]) == 44 by { assert b[..6][..5] == b[..5]; }
      assert FromBits(b[..7]) == 88 by { assert b[..7][..6] == b[..6]; }
      assert b[..8] == b;
    }
    assert Pack(padded) == [0xB0] by {
      assert padded[..8] == padded;
      assert padded[8..] == [];
    }
    BitStringRoundTrip([1, 0, 1, 1, 0]);
    var bad: Bytes := [3, 0xB1];
    if DecodeBits(bad).Success? {
      assert BitStringOctets(DecodeBits(bad).value) == bad;
      assert |DecodeBits(bad).value| == 5;
      assert BitStringOctets(DecodeBits(bad).value)[1] == Pack(DecodeBits(bad).value + Zeros(3))[0];
      var z := DecodeBits(bad).value + Zeros(3);
      assert Pack(z)[0] == FromBits(z[..8]);
      FromBitsEven(z[..8]);
      assert false;
    }
  }

  /** A bit sequence ending in 0 has an even value. */
  lemma FromBitsEven(bs: seq<Bit>)
    requires |bs| > 0 && bs[|bs| - 1] == 0
    ensures FromBits(bs) % 2 == 0
  {
  }
}
