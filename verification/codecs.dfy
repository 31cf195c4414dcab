/** The collaborators a container codec is built from, seen only through
    their contracts: the per-type codec of a general element (and of the
    size field, which is the same kind of codec at type SizeType), and the
    raw fixed-width image of an integral element. */
module Codecs {
  import opened Wire
  import opened Streams

  /** A per-type codec (Encoding<T>) of a general element type: its size
      pre-pass, the bytes its write emits (prefix included) and its decoder,
      which returns the value and the number of bytes it consumed. */
  datatype Codec<!T(!new)> = Codec(size: T -> nat, encode: T -> seq<byte>, decode: seq<byte> -> Result<(T, nat)>)
  {
    /** What the container codecs rely on: the size pre-pass agrees with the
        write, decoding reads back what was written whatever follows it, and
        a decoder consumes at least one byte (every record starts with its
        prefix byte) and never more than it was given. */
    ghost predicate Valid()
    {
      (forall x :: size(x) == |encode(x)|) &&
      (forall x, rest :: Reads(decode, encode(x) + rest, x, |encode(x)|)) &&
      (forall input :: decode(input).Success? ==> 1 <= decode(input).value.1 <= |input|)
    }
  }

  /** `decode` applied to `input` yields `x` after consuming `used` bytes. */
  ghost predicate Reads<T>(decode: seq<byte> -> Result<(T, nat)>, input: seq<byte>, x: T, used: nat)
  {
    decode(input).Success? && decode(input).value == (x, used)
  }

  /** A valid codec decodes `x` from any position where its encoding sits. */
  lemma DecodeAt<T(!new)>(c: Codec<T>, data: seq<byte>, pos: nat, x: T)
    requires c.Valid()
    requires pos + |c.encode(x)| <= |data| && data[pos..pos + |c.encode(x)|] == c.encode(x)
    ensures c.decode(data[pos..]) == Success((x, |c.encode(x)|))
  {
    var e := c.encode(x);
    assert data[pos..] == e + data[pos + |e|..];
    assert Reads(c.decode, e + data[pos + |e|..], x, |e|);
  }

  /** The size sub-codec (Encoding<SizeType>): a codec for counts. */
  type SizeCodec = Codec<nat>

  /** sizeof(T): every integral type occupies at least one byte. */
  type Width = n: nat | n > 0 witness 1

  /** The raw representation of an integral element type: `width` bytes per
      element; `image` gives the bytes of a value and `value` reinterprets
      `width` bytes as a value. */
  datatype Scalar<!T(!new)> = Scalar(width: Width, image: T -> seq<byte>, value: seq<byte> -> T)
  {
    /** Every value has a `width`-byte image that reads back as that value. */
    ghost predicate Valid()
    {
      forall x :: |image(x)| == width && value(image(x)) == x
    }

    /** A value-initialised element: the one whose bytes are all zero. */
    function Zero(): T
    {
      value(seq(width, _ => 0))
    }
  }

  /** A fixed-width element read straight from the source: `width` bytes, or
      ReadLimitReached when fewer remain. Seen this way a raw element is a
      codec like any other, whose encoding is its image. */
  function AsCodec<T(!new)>(s: Scalar<T>): (c: Codec<T>)
    requires s.Valid()
    ensures c.Valid() && c.encode == s.image
  {
    var c := Codec(_ => s.width, s.image,
      (input: seq<byte>) => if |input| < s.width then Failure(ReadLimitReached) else Success((s.value(input[..s.width]), s.width as nat)));
    assert forall x, rest :: (s.image(x) + rest)[..s.width] == s.image(x);
    c
  }

  /** The byte string of each element, in order. */
  function Encoded<T>(f: T -> seq<byte>, xs: seq<T>): seq<seq<byte>>
  {
    seq(|xs|, i requires 0 <= i < |xs| => f(xs[i]))
  }

  lemma EncodedCons<T>(f: T -> seq<byte>, xs: seq<T>)
    requires xs != []
    ensures Flatten(Encoded(f, xs)) == f(xs[0]) + Flatten(Encoded(f, xs[1..]))
  {
    assert Encoded(f, xs)[1..] == Encoded(f, xs[1..]);
  }

  /** Reinterprets a byte string as consecutive `width`-byte elements; a
      trailing partial element is not read. */
  function Values<T(!new)>(s: Scalar<T>, bytes: seq<byte>): seq<T>
    decreases |bytes|
  {
    if |bytes| < s.width then [] else [s.value(bytes[..s.width])] + Values(s, bytes[s.width..])
  }

  /** The raw images of `n` elements occupy exactly `n * width` bytes. */
  lemma {:induction false} ImagesLength<T(!new)>(s: Scalar<T>, xs: seq<T>)
    requires s.Valid()
    ensures |Flatten(Encoded(s.image, xs))| == |xs| * s.width
  {
    if xs != [] {
      EncodedCons(s.image, xs);
      ImagesLength(s, xs[1..]);
      assert |xs| * s.width == (|xs| - 1) * s.width + s.width;
    }
  }

  /** Reinterpreting the concatenated images of a sequence gives the sequence back. */
  lemma {:induction false} ValuesOfImages<T(!new)>(s: Scalar<T>, xs: seq<T>)
    requires s.Valid()
    ensures Values(s, Flatten(Encoded(s.image, xs))) == xs
  {
    var bytes := Flatten(Encoded(s.image, xs));
    if xs == [] {
      assert bytes == [];
    } else {
      EncodedCons(s.image, xs);
      assert bytes[..s.width] == s.image(xs[0]);
      assert bytes[s.width..] == Flatten(Encoded(s.image, xs[1..]));
      ValuesOfImages(s, xs[1..]);
    }
  }

  /** `k * width` bytes hold exactly `k` elements. */
  lemma {:induction false} ValuesLength<T(!new)>(s: Scalar<T>, bytes: seq<byte>, k: nat)
    requires |bytes| == k * s.width
    ensures |Values(s, bytes)| == k
  {
    if k > 0 {
      assert k * s.width == (k - 1) * s.width + s.width;
      ValuesLength(s, bytes[s.width..], k - 1);
    }
  }

  /** The `i`-th of `k` elements is read from the `i`-th `width` bytes. */
  lemma {:induction false} ValuesAt<T(!new)>(s: Scalar<T>, bytes: seq<byte>, k: nat, i: nat)
    requires |bytes| == k * s.width && i < k
    ensures (i + 1) * s.width <= |bytes|
    ensures |Values(s, bytes)| == k
    ensures Values(s, bytes)[i] == s.value(bytes[i * s.width..(i + 1) * s.width])
  {
    MulAtMost(i, k, s.width);
    ValuesLength(s, bytes, k);
    if i > 0 {
      ValuesTail(s, bytes, k);
      ValuesAt(s, bytes[s.width..], k - 1, i - 1);
      SliceShift(bytes, s.width, i);
    }
  }

  /** Past the first element, `k * width` bytes hold the other `k - 1`. */
  lemma ValuesTail<T(!new)>(s: Scalar<T>, bytes: seq<byte>, k: nat)
    requires |bytes| == k * s.width && k > 0
    ensures s.width <= |bytes| && |bytes[s.width..]| == (k - 1) * s.width
    ensures Values(s, bytes) == [s.value(bytes[..s.width])] + Values(s, bytes[s.width..])
  {
    assert k * s.width == (k - 1) * s.width + s.width;
  }

  /** Dropping the first `w` bytes moves the `i`-th `w`-byte block to
      position `i - 1`. */
  lemma SliceShift(bytes: seq<byte>, w: Width, i: nat)
    requires i > 0 && (i + 1) * w <= |bytes|
    ensures bytes[w..][(i - 1) * w..i * w] == bytes[i * w..(i + 1) * w]
  {
    var a := (i - 1) * w;
    assert i * w == w + a && (i + 1) * w == w + a + w;
  }

  lemma {:induction false} MulAtLeast(d: nat, w: nat)
    requires d >= 1
    ensures d * w >= w
  {
    if d > 1 {
      MulAtLeast(d - 1, w);
      assert d * w == (d - 1) * w + w;
    }
  }

  lemma MulAtMost(i: nat, k: nat, w: nat)
    requires i < k
    ensures (i + 1) * w <= k * w
  {
    assert k * w == (i + 1) * w + (k - i - 1) * w;
  }

  /** A nonzero multiple of a width is at least that width in size. */
  lemma MulBounds(d: int, w: Width)
    ensures d >= 1 ==> d * w >= w
    ensures d <= -1 ==> d * w <= -(w as int)
  {
    if d >= 1 {
      MulAtLeast(d, w);
    } else if d <= -1 {
      MulAtLeast(-d, w);
      assert d * w == -((-d) * w);
    }
  }

  /** A whole number of elements divides back exactly. */
  lemma MulDiv(n: nat, w: Width)
    ensures (n * w) % w == 0 && (n * w) / w == n && n <= n * w
  {
    var q, r := (n * w) / w, (n * w) % w;
    assert n * w == q * w + r;
    assert (n - q) * w == n * w - q * w;
    MulBounds(n - q, w);
    assert n == q;
    MulAtLeast(w, n);
  }

  /** The outcome of a container read: the status, where the cursor ended,
      and the destination's contents afterwards. */
  datatype ReadResult<T> = ReadResult(status: Status, pos: nat, items: seq<T>)

  /** Encoding<T>::Read against a reader: decode at the cursor and move past
      what was consumed; on failure the cursor stays put. */
  method ReadWith<T(!new)>(c: Codec<T>, r: Reader) returns (res: Result<T>)
    requires c.Valid() && r.Valid()
    modifies r`pos
    ensures r.Valid()
    ensures c.decode(r.data[old(r.pos)..]).Failure? ==>
      res == Failure(c.decode(r.data[old(r.pos)..]).error) && r.pos == old(r.pos)
    ensures c.decode(r.data[old(r.pos)..]).Success? ==>
      res == Success(c.decode(r.data[old(r.pos)..]).value.0) &&
      r.pos == old(r.pos) + c.decode(r.data[old(r.pos)..]).value.1
  {
    match c.decode(r.data[r.pos..])
    case Failure(e) =>
      res := Failure(e);
    case Success((x, used)) =>
      r.Skip(used);
      res := Success(x);
  }
}
