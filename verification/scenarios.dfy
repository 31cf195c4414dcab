/** Concrete collaborators and worked records: a base-128 size codec, a
    two-byte little-endian integral element and a one-byte enumeration,
    and the records they give. */
module Scenarios {
  import opened Wire
  import opened Codecs
  import opened Containers
  import opened Elements
  import opened Encoding
  import ArrayStrategy
  import BinaryStrategy

  /** A size codec: base 128, low group first, the top bit of a byte saying
      that more groups follow. A count below 128 is the single byte itself. */
  function VarEncode(n: nat): seq<byte>
    decreases n
  {
    if n < 128 then [n as byte] else [(128 + n % 128) as byte] + VarEncode(n / 128)
  }

  function VarDecode(input: seq<byte>): Result<(nat, nat)>
    decreases |input|
  {
    if input == [] then Failure(ReadLimitReached)
    else if input[0] < 128 then Success((input[0] as nat, 1))
    else match VarDecode(input[1..])
      case Failure(e) => Failure(e)
      case Success((high, used)) => Success(((input[0] as int - 128) + 128 * high, used + 1))
  }

  lemma {:induction false} VarRoundTrip(n: nat, rest: seq<byte>)
    ensures VarDecode(VarEncode(n) + rest) == Success((n, |VarEncode(n)|))
    decreases n
  {
    if n >= 128 {
      var high := n / 128;
      VarRoundTrip(high, rest);
      VarDecodeStep(n, VarEncode(high) + rest, |VarEncode(high)|);
      assert VarEncode(n) + rest == [(128 + n % 128) as byte] + (VarEncode(high) + rest);
    }
  }

  /** A continuation byte carries the low seven bits of the count. */
  lemma VarDecodeStep(n: nat, more: seq<byte>, used: nat)
    requires n >= 128 && VarDecode(more) == Success((n / 128, used))
    ensures VarDecode([(128 + n % 128) as byte] + more) == Success((n, used + 1))
  {
    var input := [(128 + n % 128) as byte] + more;
    assert input[0] as int == 128 + n % 128;
    assert input[1..] == more;
  }

  lemma {:induction false} VarDecodeConsumes(input: seq<byte>)
    ensures VarDecode(input).Success? ==> 1 <= VarDecode(input).value.1 <= |input|
    decreases |input|
  {
    if input != [] && input[0] >= 128 {
      VarDecodeConsumes(input[1..]);
    }
  }

  function Varint(): (sc: SizeCodec)
    ensures sc.Valid()
  {
    var sc := Codec(n => |VarEncode(n)|, VarEncode, VarDecode);
    forall n: nat, rest: seq<byte>
      ensures Reads(sc.decode, sc.encode(n) + rest, n, |sc.encode(n)|)
    {
      VarRoundTrip(n, rest);
    }
    forall input: seq<byte>
      ensures sc.decode(input).Success? ==> 1 <= sc.decode(input).value.1 <= |input|
    {
      VarDecodeConsumes(input);
    }
    sc
  }

  newtype u16 = x: int | 0 <= x < 0x1_0000

  /** A 16-bit unsigned integer, stored low byte first. */
  function U16(): (sk: Scalar<u16>)
    ensures sk.Valid() && sk.width == 2
  {
    Scalar(2,
      (x: u16) => [(x % 256) as byte, (x / 256) as byte],
      (b: seq<byte>) => if |b| == 2 then (b[0] as int + 256 * b[1] as int) as u16 else 0)
  }

  datatype Colour = Red | Green | Blue

  /** A general element type whose encoding is a single byte. */
  function ColourCodec(): (ec: Codec<Colour>)
    ensures ec.Valid()
  {
    var ec := Codec(
      _ => 1,
      (c: Colour) => match c case Red => [0] case Green => [1] case Blue => [2],
      (input: seq<byte>) =>
        if input == [] then Failure(ReadLimitReached)
        else if input[0] == 0 then Success((Red, 1))
        else if input[0] == 1 then Success((Green, 1))
        else if input[0] == 2 then Success((Blue, 1))
        else Failure(UnexpectedEncodingType));
    forall c: Colour, rest: seq<byte>
      ensures Reads(ec.decode, ec.encode(c) + rest, c, |ec.encode(c)|)
    {
      assert (ec.encode(c) + rest)[0] == ec.encode(c)[0];
    }
    forall input: seq<byte>
      ensures ec.decode(input).Success? ==> 1 <= ec.decode(input).value.1 <= |input|
    {
    }
    ec
  }

  /** A count below 128 is a single byte, whatever follows it. */
  lemma OneByteCount(n: nat, rest: seq<byte>)
    requires n < 128
    ensures Varint().encode(n) == [n as byte]
    ensures Varint().decode([n as byte] + rest) == Success((n, 1))
  {
    assert ([n as byte] + rest)[0] == n as byte;
  }

  /** 0x0201 is stored as the bytes 01 02. */
  lemma ImageOf0201()
    ensures U16().image(0x0201) == [1, 2]
  {
  }

  /** Three copies of 0x0201 lay out as 01 02 01 02 01 02. */
  lemma ThreeImages()
    ensures BinaryStrategy.Images(U16(), [0x0201, 0x0201, 0x0201]) == [1, 2, 1, 2, 1, 2]
  {
    var xs: seq<u16> := [0x0201, 0x0201, 0x0201];
    var e: seq<byte> := [1, 2];
    ImageOf0201();
    assert Encoded(U16().image, xs) == [e] + [e] + [e];
    FlattenAppend([e] + [e], [e]);
    FlattenAppend([e], [e]);
    assert Flatten([e]) == e by {
      assert [e][1..] == [];
    }
  }

  /** Three equal 16-bit elements whose bytes are 01 02 become the payload
      [6][01 02 01 02 01 02] under the Binary tag. */
  lemma BinaryRecord()
    ensures Prefix(Integral(U16()), [0x0201, 0x0201, 0x0201]) == Binary
    ensures Payload(Varint(), Integral(U16()), [0x0201, 0x0201, 0x0201]) == [6, 1, 2, 1, 2, 1, 2]
  {
    ThreeImages();
    OneByteCount(6, []);
  }

  /** A vector or a list reads that record back. */
  lemma BinaryRecordReadBack(shape: Shape, before: seq<u16>)
    requires PolicyOf(shape) == Append
    ensures Read(shape, Varint(), Integral(U16()), BinaryStrategy.ElementCount, before, [6, 1, 2, 1, 2, 1, 2], 0)
      == ReadResult(Ok, 7, [0x0201, 0x0201, 0x0201])
  {
    var xs: seq<u16> := [0x0201, 0x0201, 0x0201];
    BinaryRecord();
    var payload := Payload(Varint(), Integral(U16()), xs);
    assert payload + [] == [6, 1, 2, 1, 2, 1, 2];
    SequenceRoundTrip(shape, Varint(), Integral(U16()), BinaryStrategy.ElementCount, xs, before, payload, 0, []);
  }

  /** The elements Red and Blue encode to 00 and 02. */
  lemma ColoursEncoded()
    ensures Flatten(Encoded(ColourCodec().encode, [Red, Blue])) == [0, 2]
  {
    var e: seq<seq<byte>> := [[0], [2]];
    assert Encoded(ColourCodec().encode, [Red, Blue]) == e;
    assert e[1..] == [[2]] && e[1..][1..] == [];
  }

  /** Two one-byte general elements become the payload [2][00][02] under
      the Array tag, and the size pre-pass counts those bytes and the tag. */
  lemma ArrayRecord()
    ensures Prefix(General(ColourCodec()), [Red, Blue]) == Array
    ensures Payload(Varint(), General(ColourCodec()), [Red, Blue]) == [2, 0, 2]
    ensures Size(Varint(), General(ColourCodec()), [Red, Blue]) == 4
  {
    OneByteCount(2, []);
    ColoursEncoded();
    SizeAgreement(List, Varint(), General(ColourCodec()), [Red, Blue], 0);
  }

  /** An empty container of an integral type is the payload [0] under the
      Binary tag, and reading that record empties any destination, of every
      shape. */
  lemma EmptyRecord(shape: Shape, before: seq<u16>)
    ensures Prefix(Integral(U16()), []) == Binary
    ensures Payload(Varint(), Integral(U16()), []) == [0]
    ensures Read(shape, Varint(), Integral(U16()), BinaryStrategy.ElementCount, before, [0], 0) == ReadResult(Ok, 1, [])
  {
    OneByteCount(0, []);
    assert Payload(Varint(), Integral(U16()), []) == [0] + [];
    assert Payload(Varint(), Integral(U16()), []) + [] == [0];
    if PolicyOf(shape) == Append {
      SequenceRoundTrip(shape, Varint(), Integral(U16()), BinaryStrategy.ElementCount, [], before, [0], 0, []);
    } else {
      SetRoundTrip(shape, Varint(), Integral(U16()), BinaryStrategy.ElementCount, [], before, [0], 0, []);
    }
  }

  /** The record [4][07 00] declares four bytes, two 16-bit elements, but
      holds only one. Given the element count, the availability check asks
      for 2 units, finds 2 and lets the read go on; given the byte length it
      asks for 4 and refuses. */
  lemma ShortSourceHeader()
    ensures BinaryStrategy.ReadHeader(Varint(), U16(), [4, 7, 0], 0, BinaryStrategy.ElementCount) == BinaryStrategy.Accepted(2, 1)
    ensures BinaryStrategy.ReadHeader(Varint(), U16(), [4, 7, 0], 0, BinaryStrategy.ByteLength) == BinaryStrategy.Rejected(ReadLimitReached, 1)
  {
    var data: seq<byte> := [4, 7, 0];
    OneByteCount(4, [7, 0]);
    assert data[0..] == [4 as byte] + [7, 0];
  }

  /** Decoding up to two 16-bit elements from just past the length field:
      the first is read, the second finds no bytes left. */
  lemma ShortSourceElements()
    ensures DecodeElements(AsCodec(U16()), [4, 7, 0], 1, 2, []) == Decoded(Fail(ReadLimitReached), 3, [7])
  {
    var data: seq<byte> := [4, 7, 0];
    var c := AsCodec(U16());
    assert data[1..] == [7, 0] && data[1..][..2] == [7, 0];
    assert c.decode(data[1..]) == Success((7, 2));
    assert data[3..] == [];
    assert DecodeElements(c, data, 3, 1, [7]) == Decoded(Fail(ReadLimitReached), 3, [7]);
  }

  /** With the element count as the guard, the list read clears the
      destination, adds the one whole element and only then runs short. */
  lemma ShortSourceList()
    ensures Read(List, Varint(), Integral(U16()), BinaryStrategy.ElementCount, [5], [4, 7, 0], 0) == ReadResult(Fail(ReadLimitReached), 3, [7])
  {
    ShortSourceHeader();
    ShortSourceElements();
    assert Filled(Append, [7 as u16]) == [7] by {
      assert [7 as u16][..0] == [];
    }
  }

  /** With the element count as the guard, the vector read resizes the
      destination to two elements before the bulk read runs short. */
  lemma ShortSourceVector()
    ensures Read(Vector, Varint(), Integral(U16()), BinaryStrategy.ElementCount, [5], [4, 7, 0], 0) == ReadResult(Fail(ReadLimitReached), 1, [5, 0])
  {
    ShortSourceHeader();
    assert U16().Zero() == 0 by {
      assert |seq(2, _ => 0 as byte)| == 2;
    }
    assert Resized([5 as u16], 2, 0) == [5, 0];
  }

  /** With the byte length as the guard, both reads fail before touching
      the destination. */
  lemma ShortSourceByteGuard()
    ensures Read(List, Varint(), Integral(U16()), BinaryStrategy.ByteLength, [5], [4, 7, 0], 0) == ReadResult(Fail(ReadLimitReached), 1, [5])
    ensures Read(Vector, Varint(), Integral(U16()), BinaryStrategy.ByteLength, [5], [4, 7, 0], 0) == ReadResult(Fail(ReadLimitReached), 1, [5])
  {
    ShortSourceHeader();
  }
}
