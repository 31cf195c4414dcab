/** The Binary strategy, used by every container of an integral element
    type:

      +-----+---------+---//----+
      | BIN | INT64:L | L BYTES |
      +-----+---------+---//----+

    where L = N * width. The length field counts bytes, not elements, and the
    elements are their raw fixed-width images back to back. std::list and the
    two sets write and read one element at a time; std::vector writes all the
    images in one piece and reads them in one piece after resizing. */
module BinaryStrategy {
  import opened Wire
  import opened Streams
  import opened Codecs
  import opened Containers
  import opened Elements

  /** What the availability check is given before the destination is
      touched: the element count, as the library does, or the byte length
      about to be consumed. */
  datatype Guard = ElementCount | ByteLength

  /** The number of units the availability check asks for, for `count`
      elements of `width` bytes: never less than the element count and
      never more than the bytes the elements occupy. */
  function Needed(guard: Guard, count: nat, width: Width): (n: nat)
    ensures count <= n <= count * width
  {
    MulDiv(count, width);
    match guard
    case ElementCount => count
    case ByteLength => count * width
  }

  /** The raw images of the elements, back to back. */
  function Images<T(!new)>(sk: Scalar<T>, xs: seq<T>): seq<byte>
  {
    Flatten(Encoded(sk.image, xs))
  }

  /** The images hold exactly the elements, in order, `width` bytes each. */
  lemma ImagesLayout<T(!new)>(sk: Scalar<T>, xs: seq<T>)
    requires sk.Valid()
    ensures |Images(sk, xs)| == |xs| * sk.width
    ensures Values(sk, Images(sk, xs)) == xs
  {
    ImagesLength(sk, xs);
    ValuesOfImages(sk, xs);
  }

  /** The writes of the per-element form (std::list, std::set,
      std::unordered_set): the byte length, then one image per element. */
  function LoopPieces<T(!new)>(sc: SizeCodec, sk: Scalar<T>, xs: seq<T>): seq<seq<byte>>
  {
    [sc.encode(|xs| * sk.width)] + Encoded(sk.image, xs)
  }

  /** The writes of the bulk form (std::vector): the byte length, then all
      the images as one contiguous range. */
  function BulkPieces<T(!new)>(sc: SizeCodec, sk: Scalar<T>, xs: seq<T>): seq<seq<byte>>
  {
    [sc.encode(|xs| * sk.width), Images(sk, xs)]
  }

  /** The payload a successful write emits. */
  function Payload<T(!new)>(sc: SizeCodec, sk: Scalar<T>, xs: seq<T>): seq<byte>
  {
    sc.encode(|xs| * sk.width) + Images(sk, xs)
  }

  /** Both forms emit the same bytes when they succeed. */
  lemma SameBytes<T(!new)>(sc: SizeCodec, sk: Scalar<T>, xs: seq<T>)
    ensures Flatten(LoopPieces(sc, sk, xs)) == Payload(sc, sk, xs)
    ensures Flatten(BulkPieces(sc, sk, xs)) == Payload(sc, sk, xs)
  {
    assert LoopPieces(sc, sk, xs)[1..] == Encoded(sk.image, xs);
    var images := Images(sk, xs);
    assert BulkPieces(sc, sk, xs)[1..] == [images];
    assert Flatten([images]) == images by {
      assert [images][1..] == [];
    }
  }

  /** The size pre-pass: tag, byte-length field, and the image bytes, at
      least one byte per element. */
  function Size<T(!new)>(sc: SizeCodec, sk: Scalar<T>, xs: seq<T>): (n: nat)
    ensures n >= BaseEncodingSize(Binary) + sc.size(|xs| * sk.width) + |xs|
  {
    BaseEncodingSize(Binary) + sc.size(|xs| * sk.width) + |xs| * sk.width
  }

  /** Size agreement: the pre-pass counts exactly the tag plus the payload. */
  lemma SizeAgreement<T(!new)>(sc: SizeCodec, sk: Scalar<T>, xs: seq<T>)
    requires sc.Valid() && sk.Valid()
    ensures Size(sc, sk, xs) == BaseEncodingSize(Binary) + |Payload(sc, sk, xs)|
  {
    ImagesLength(sk, xs);
  }

  /** What reading the length field leaves: a rejection, with its error and
      the cursor, or the element count to read from the cursor on. */
  datatype Header = Rejected(error: Error, pos: nat) | Accepted(count: nat, pos: nat)

  /** The checks before the destination is touched: the byte length must
      decode, be a whole number of elements, and pass the availability
      check. */
  function ReadHeader<T(!new)>(sc: SizeCodec, sk: Scalar<T>, data: seq<byte>, pos: nat, guard: Guard): (h: Header)
    requires sc.Valid() && pos <= |data|
    ensures pos <= h.pos <= |data|
    ensures h.Accepted? ==> Needed(guard, h.count, sk.width) <= |data| - h.pos
  {
    match sc.decode(data[pos..])
    case Failure(e) => Rejected(e, pos)
    case Success((size, used)) =>
      if size % sk.width != 0 then Rejected(InvalidContainerLength, pos + used)
      else if |data| - (pos + used) < Needed(guard, size / sk.width, sk.width) then Rejected(ReadLimitReached, pos + used)
      else Accepted(size / sk.width, pos + used)
  }

  /** ReadPayload of the per-element form: after the checks, clear the
      destination and add each element read from the source. */
  function LoopRead<T(!new,==)>(sc: SizeCodec, sk: Scalar<T>, p: Policy, before: seq<T>, data: seq<byte>, pos: nat, guard: Guard): (r: ReadResult<T>)
    requires sc.Valid() && sk.Valid() && pos <= |data|
    ensures pos <= r.pos <= |data|
  {
    var h := ReadHeader(sc, sk, data, pos, guard);
    if h.Rejected? then ReadResult(Fail(h.error), h.pos, before)
    else
      var d := DecodeElements(AsCodec(sk), data, h.pos, h.count, []);
      ReadResult(d.status, d.pos, Filled(p, d.elems))
  }

  /** ReadPayload of the bulk form: after the checks, resize the vector to
      the element count, then read all the images at once over its storage;
      when too few bytes remain, the resized vector is left behind. */
  function BulkRead<T(!new)>(sc: SizeCodec, sk: Scalar<T>, before: seq<T>, data: seq<byte>, pos: nat, guard: Guard): (r: ReadResult<T>)
    requires sc.Valid() && sk.Valid() && pos <= |data|
    ensures pos <= r.pos <= |data|
  {
    var h := ReadHeader(sc, sk, data, pos, guard);
    if h.Rejected? then ReadResult(Fail(h.error), h.pos, before)
    else BulkBody(sk, before, data, h.pos, h.count)
  }

  /** What the bulk form does once the checks pass at `pos`: resize to
      `count`, then read `count * width` bytes over the elements. */
  function BulkBody<T(!new)>(sk: Scalar<T>, before: seq<T>, data: seq<byte>, pos: nat, count: nat): (r: ReadResult<T>)
    requires pos <= |data|
    ensures pos <= r.pos <= |data|
  {
    if count * sk.width <= |data| - pos then
      ReadResult(Ok, pos + count * sk.width, Values(sk, data[pos..pos + count * sk.width]))
    else ReadResult(Fail(ReadLimitReached), pos, Resized(before, count, sk.Zero()))
  }

  /** A byte length that is not a whole number of elements is rejected with
      InvalidContainerLength, just past the length field, and the destination
      is left as it was. */
  lemma RejectsPartialElement<T(!new)>(sc: SizeCodec, sk: Scalar<T>, p: Policy, before: seq<T>, data: seq<byte>, pos: nat, guard: Guard, size: nat, used: nat)
    requires sc.Valid() && sk.Valid() && pos <= |data|
    requires sc.decode(data[pos..]) == Success((size, used)) && size % sk.width != 0
    ensures LoopRead(sc, sk, p, before, data, pos, guard) == ReadResult(Fail(InvalidContainerLength), pos + used, before)
    ensures BulkRead(sc, sk, before, data, pos, guard) == ReadResult(Fail(InvalidContainerLength), pos + used, before)
  {
  }

  /** A whole number of elements that the availability check refuses is
      rejected with ReadLimitReached before the destination is touched. */
  lemma RejectsShortSource<T(!new)>(sc: SizeCodec, sk: Scalar<T>, p: Policy, before: seq<T>, data: seq<byte>, pos: nat, guard: Guard, count: nat, used: nat)
    requires sc.Valid() && sk.Valid() && pos <= |data|
    requires sc.decode(data[pos..]) == Success((count * sk.width, used))
    requires Needed(guard, count, sk.width) > |data| - (pos + used)
    ensures LoopRead(sc, sk, p, before, data, pos, guard) == ReadResult(Fail(ReadLimitReached), pos + used, before)
    ensures BulkRead(sc, sk, before, data, pos, guard) == ReadResult(Fail(ReadLimitReached), pos + used, before)
  {
    MulDiv(count, sk.width);
  }

  /** Every failure of the checks is reported as it is and leaves the
      destination as it was; the destination changes only once a count has
      been accepted. */
  lemma RejectedKeepsDestination<T(!new)>(sc: SizeCodec, sk: Scalar<T>, p: Policy, before: seq<T>, data: seq<byte>, pos: nat, guard: Guard)
    requires sc.Valid() && sk.Valid() && pos <= |data|
    ensures var h := ReadHeader(sc, sk, data, pos, guard);
      h.Rejected? ==>
        LoopRead(sc, sk, p, before, data, pos, guard) == ReadResult(Fail(h.error), h.pos, before) &&
        BulkRead(sc, sk, before, data, pos, guard) == ReadResult(Fail(h.error), h.pos, before)
    ensures LoopRead(sc, sk, p, before, data, pos, guard).items != before ==> ReadHeader(sc, sk, data, pos, guard).Accepted?
    ensures BulkRead(sc, sk, before, data, pos, guard).items != before ==> ReadHeader(sc, sk, data, pos, guard).Accepted?
  {
  }

  /** The length field of a written payload, wherever in the source it
      starts, is accepted under either guard, with the element count, and
      the images follow it. */
  lemma HeaderOfPayload<T(!new)>(sc: SizeCodec, sk: Scalar<T>, xs: seq<T>, data: seq<byte>, pos: nat, rest: seq<byte>, guard: Guard)
    requires sc.Valid() && sk.Valid() && pos <= |data| && data[pos..] == Payload(sc, sk, xs) + rest
    ensures var head := sc.encode(|xs| * sk.width);
      ReadHeader(sc, sk, data, pos, guard) == Accepted(|xs|, pos + |head|) &&
      data[pos + |head|..] == Images(sk, xs) + rest
  {
    var head := sc.encode(|xs| * sk.width);
    LengthFieldAt(sc, sk, xs, data, pos, rest);
    AcceptedLength(sc, sk, data, pos, guard, |xs|, |head|);
  }

  /** In a written payload that starts at `pos`, the length field decodes
      to the images' byte length, and the images follow it. */
  lemma LengthFieldAt<T(!new)>(sc: SizeCodec, sk: Scalar<T>, xs: seq<T>, data: seq<byte>, pos: nat, rest: seq<byte>)
    requires sc.Valid() && sk.Valid() && pos <= |data| && data[pos..] == Payload(sc, sk, xs) + rest
    ensures var head := sc.encode(|xs| * sk.width);
      pos + |head| <= |data| &&
      sc.decode(data[pos..]) == Success((|xs| * sk.width, |head|)) &&
      data[pos + |head|..] == Images(sk, xs) + rest &&
      |xs| * sk.width <= |data| - (pos + |head|)
  {
    var head := sc.encode(|xs| * sk.width);
    ImagesLength(sk, xs);
    assert data[pos..] == head + (Images(sk, xs) + rest);
    assert Reads<nat>(sc.decode, head + (Images(sk, xs) + rest), |xs| * sk.width, |head|);
    assert data[pos + |head|..] == data[pos..][|head|..];
  }

  /** A length field holding `count` whole elements, with at least their
      bytes left after it, passes every check under either guard. */
  lemma AcceptedLength<T(!new)>(sc: SizeCodec, sk: Scalar<T>, data: seq<byte>, pos: nat, guard: Guard, count: nat, used: nat)
    requires sc.Valid() && pos + used <= |data|
    requires sc.decode(data[pos..]) == Success((count * sk.width, used))
    requires count * sk.width <= |data| - (pos + used)
    ensures ReadHeader(sc, sk, data, pos, guard) == Accepted(count, pos + used)
  {
    MulDiv(count, sk.width);
  }

  /** Round trip of the per-element form: reading back a written payload,
      wherever in the source it starts and whatever follows it, succeeds,
      consumes exactly the payload and leaves the destination holding the
      written elements added in order. */
  lemma LoopRoundTrip<T(!new)>(sc: SizeCodec, sk: Scalar<T>, p: Policy, xs: seq<T>, before: seq<T>, data: seq<byte>, pos: nat, rest: seq<byte>, guard: Guard)
    requires sc.Valid() && sk.Valid() && pos <= |data| && data[pos..] == Payload(sc, sk, xs) + rest
    ensures LoopRead(sc, sk, p, before, data, pos, guard) == ReadResult(Ok, pos + |Payload(sc, sk, xs)|, Filled(p, xs))
  {
    var start := pos + |sc.encode(|xs| * sk.width)|;
    HeaderOfPayload(sc, sk, xs, data, pos, rest, guard);
    LoopElements(sk, xs, data, start, rest);
    LoopReadOfWholeRun(sc, sk, p, before, data, pos, guard, start, xs, start + |Images(sk, xs)|);
  }

  /** Once the header at `pos` is accepted with |xs| elements and the
      element loop after it reads xs back, the per-element read succeeds
      with xs placed under the policy. */
  lemma LoopReadOfWholeRun<T(!new)>(sc: SizeCodec, sk: Scalar<T>, p: Policy, before: seq<T>, data: seq<byte>, pos: nat, guard: Guard, start: nat, xs: seq<T>, end: nat)
    requires sc.Valid() && sk.Valid() && pos <= |data| && ReadHeader(sc, sk, data, pos, guard) == Accepted(|xs|, start)
    requires start <= |data| && DecodeElements(AsCodec(sk), data, start, |xs|, []) == Decoded(Ok, end, xs)
    ensures LoopRead(sc, sk, p, before, data, pos, guard) == ReadResult(Ok, end, Filled(p, xs))
  {
  }

  /** Images that sit at `start` decode, one element at a time, to the
      elements they are the images of, and the run ends where they end. */
  lemma LoopElements<T(!new)>(sk: Scalar<T>, xs: seq<T>, data: seq<byte>, start: nat, rest: seq<byte>)
    requires sk.Valid() && start <= |data| && data[start..] == Images(sk, xs) + rest
    ensures DecodeElements(AsCodec(sk), data, start, |xs|, []) == Decoded(Ok, start + |Images(sk, xs)|, xs)
  {
    DecodeEncoded(AsCodec(sk), xs, data, start, [], rest);
    assert [] + xs == xs;
  }

  /** Round trip of the bulk form: the vector read back, wherever in the
      source the payload starts, is the vector written, index for index. */
  lemma BulkRoundTrip<T(!new)>(sc: SizeCodec, sk: Scalar<T>, xs: seq<T>, before: seq<T>, data: seq<byte>, pos: nat, rest: seq<byte>, guard: Guard)
    requires sc.Valid() && sk.Valid() && pos <= |data| && data[pos..] == Payload(sc, sk, xs) + rest
    ensures BulkRead(sc, sk, before, data, pos, guard) == ReadResult(Ok, pos + |Payload(sc, sk, xs)|, xs)
  {
    var start := pos + |sc.encode(|xs| * sk.width)|;
    HeaderOfPayload(sc, sk, xs, data, pos, rest, guard);
    BulkBodyOfImages(sk, xs, before, data, start, rest);
    BulkReadOfAccepted(sc, sk, before, data, pos, guard, |xs|, start);
  }

  /** Once the header at `pos` is accepted, the bulk read is its body. */
  lemma BulkReadOfAccepted<T(!new)>(sc: SizeCodec, sk: Scalar<T>, before: seq<T>, data: seq<byte>, pos: nat, guard: Guard, count: nat, start: nat)
    requires sc.Valid() && sk.Valid() && pos <= |data| && ReadHeader(sc, sk, data, pos, guard) == Accepted(count, start)
    ensures start <= |data| && BulkRead(sc, sk, before, data, pos, guard) == BulkBody(sk, before, data, start, count)
  {
  }

  /** Images that sit at `start` are read back in one piece as the elements
      they are the images of, and the read ends where they end. */
  lemma BulkBodyOfImages<T(!new)>(sk: Scalar<T>, xs: seq<T>, before: seq<T>, data: seq<byte>, start: nat, rest: seq<byte>)
    requires sk.Valid() && start <= |data| && data[start..] == Images(sk, xs) + rest
    ensures BulkBody(sk, before, data, start, |xs|) == ReadResult(Ok, start + |Images(sk, xs)|, xs)
  {
    ImagesLayout(sk, xs);
    assert data[start..start + |xs| * sk.width] == Images(sk, xs);
  }

  /** After a successful bulk read the vector has exactly size / width
      elements, all of them read from the `size` bytes after the length
      field, `width` bytes each: nothing of the old contents is left. */
  lemma BulkSuccessOverwritesAll<T(!new)>(sc: SizeCodec, sk: Scalar<T>, before: seq<T>, data: seq<byte>, pos: nat, guard: Guard)
    requires sc.Valid() && sk.Valid() && pos <= |data|
    requires BulkRead(sc, sk, before, data, pos, guard).status.Ok?
    ensures var h := ReadHeader(sc, sk, data, pos, guard); var r := BulkRead(sc, sk, before, data, pos, guard);
      h.Accepted? && |r.items| == h.count && r.pos == h.pos + h.count * sk.width &&
      r.items == Values(sk, data[h.pos..r.pos])
  {
    var h := ReadHeader(sc, sk, data, pos, guard);
    assert h.Accepted?;
    BulkReadOfAccepted(sc, sk, before, data, pos, guard, h.count, h.pos);
    BulkBodyOverwritesAll(sk, before, data, h.pos, h.count);
  }

  /** After a successful bulk read, element i of the vector is the value of
      the i-th `width`-byte slot after the length field. */
  lemma BulkSuccessElement<T(!new)>(sc: SizeCodec, sk: Scalar<T>, before: seq<T>, data: seq<byte>, pos: nat, guard: Guard, i: nat)
    requires sc.Valid() && sk.Valid() && pos <= |data|
    requires BulkRead(sc, sk, before, data, pos, guard).status.Ok?
    requires i < |BulkRead(sc, sk, before, data, pos, guard).items|
    ensures var h := ReadHeader(sc, sk, data, pos, guard);
      h.pos + (i + 1) * sk.width <= |data| &&
      BulkRead(sc, sk, before, data, pos, guard).items[i] == sk.value(data[h.pos + i * sk.width..h.pos + (i + 1) * sk.width])
  {
    var h, r := ReadHeader(sc, sk, data, pos, guard), BulkRead(sc, sk, before, data, pos, guard);
    BulkSuccessOverwritesAll(sc, sk, before, data, pos, guard);
    ValueInPlace(sk, data, h.pos, r.pos, h.count, i);
  }

  /** A body read that succeeds reads exactly `count` elements from the
      `count * width` bytes at `start`. */
  lemma BulkBodyOverwritesAll<T(!new)>(sk: Scalar<T>, before: seq<T>, data: seq<byte>, start: nat, count: nat)
    requires start <= |data| && BulkBody(sk, before, data, start, count).status.Ok?
    ensures var r := BulkBody(sk, before, data, start, count);
      |r.items| == count && r.pos == start + count * sk.width &&
      r.items == Values(sk, data[start..r.pos])
  {
    ValuesLength(sk, data[start..start + count * sk.width], count);
  }

  /** Element i of a read of `count` elements over the bytes from `start`
      to `end` is the value of the i-th `width`-byte slot. */
  lemma ValueInPlace<T(!new)>(sk: Scalar<T>, data: seq<byte>, start: nat, end: nat, count: nat, i: nat)
    requires end == start + count * sk.width <= |data| && i < count
    ensures start + (i + 1) * sk.width <= |data|
    ensures |Values(sk, data[start..end])| == count
    ensures Values(sk, data[start..end])[i] == sk.value(data[start + i * sk.width..start + (i + 1) * sk.width])
  {
    var bytes := data[start..end];
    ValuesAt(sk, bytes, count, i);
    var lo, hi := i * sk.width, (i + 1) * sk.width;
    assert lo <= hi by {
      assert hi == lo + sk.width;
    }
    SliceOfSlice(data, start, end, lo, hi);
  }

  /** A slice of a slice is a slice of the whole. */
  lemma SliceOfSlice(data: seq<byte>, start: nat, end: nat, lo: nat, hi: nat)
    requires start <= end <= |data| && lo <= hi <= end - start
    ensures data[start..end][lo..hi] == data[start + lo..start + hi]
  {
    var inner, outer := data[start..end][lo..hi], data[start + lo..start + hi];
    assert |inner| == hi - lo == |outer|;
    forall k | 0 <= k < hi - lo
      ensures inner[k] == outer[k]
    {
      assert inner[k] == data[start..end][lo + k] == data[start + lo + k];
    }
  }

  /** With the byte-length guard no element read can run short, so a
      per-element read that passes the checks always succeeds. */
  lemma {:induction false} ScalarsDecode<T(!new)>(sk: Scalar<T>, data: seq<byte>, pos: nat, n: nat, acc: seq<T>)
    requires sk.Valid() && pos <= |data| && n * sk.width <= |data| - pos
    ensures DecodeElements(AsCodec(sk), data, pos, n, acc).status == Ok
    decreases n
  {
    if n > 0 {
      assert n * sk.width == (n - 1) * sk.width + sk.width;
      ScalarsDecode(sk, data, pos + sk.width, n - 1, acc + [sk.value(data[pos..][..sk.width])]);
    }
  }

  /** With the availability check given the byte length, a read that fails
      leaves the destination exactly as it was: every shortage is caught
      before the destination is cleared or resized. */
  lemma ByteGuardFailsCleanly<T(!new)>(sc: SizeCodec, sk: Scalar<T>, p: Policy, before: seq<T>, data: seq<byte>, pos: nat)
    requires sc.Valid() && sk.Valid() && pos <= |data|
    ensures LoopRead(sc, sk, p, before, data, pos, ByteLength).status.Fail? ==>
      LoopRead(sc, sk, p, before, data, pos, ByteLength).items == before
    ensures BulkRead(sc, sk, before, data, pos, ByteLength).status.Fail? ==>
      BulkRead(sc, sk, before, data, pos, ByteLength).items == before
  {
    var h := ReadHeader(sc, sk, data, pos, ByteLength);
    if h.Accepted? {
      ScalarsDecode(sk, data, h.pos, h.count, []);
    }
  }

  /** WritePayload of the per-element form: the byte length, then each
      image in iteration order; the first failing write ends it. */
  method WriteLoop<T(!new)>(sc: SizeCodec, sk: Scalar<T>, xs: seq<T>, w: Writer) returns (s: Status)
    requires w.Valid()
    modifies w
    ensures w.Valid()
    ensures var e := Emit(LoopPieces(sc, sk, xs), old(w.Room()));
      w.data == old(w.data) + e.bytes && s == e.status
  {
    assert LoopPieces(sc, sk, xs)[1..] == Encoded(sk.image, xs);
    var length := |xs|;
    s := w.Write(sc.encode(length * sk.width));
    if s.Fail? {
      return;
    }
    s := WriteEach(sk.image, xs, w);
  }

  /** WritePayload of the bulk form: the byte length, then the contiguous
      images of all the elements in one write. */
  method WriteBulk<T(!new)>(sc: SizeCodec, sk: Scalar<T>, xs: seq<T>, w: Writer) returns (s: Status)
    requires w.Valid()
    modifies w
    ensures w.Valid()
    ensures var e := Emit(BulkPieces(sc, sk, xs), old(w.Room()));
      w.data == old(w.data) + e.bytes && s == e.status
  {
    EmitTwo(sc.encode(|xs| * sk.width), Images(sk, xs), w.Room());
    var length := |xs|;
    s := w.Write(sc.encode(length * sk.width));
    if s.Fail? {
      return;
    }
    s := w.Write(Images(sk, xs));
  }

  /** Reads the byte length, rejects a partial element, and asks the source
      whether `Needed(guard, ...)` units remain, touching no destination.
      The library passes the element count (guard ElementCount). */
  method ReadLength<T(!new)>(sc: SizeCodec, sk: Scalar<T>, r: Reader, guard: Guard) returns (h: Header)
    requires sc.Valid() && r.Valid()
    modifies r`pos
    ensures r.Valid()
    ensures h == ReadHeader(sc, sk, r.data, old(r.pos), guard) && r.pos == h.pos
  {
    var size := ReadWith(sc, r);
    if size.Failure? {
      return Rejected(size.error, r.pos);
    }
    if size.value % sk.width != 0 {
      return Rejected(InvalidContainerLength, r.pos);
    }
    var length := size.value / sk.width;
    var status := r.Ensure(Needed(guard, length, sk.width));
    if status.Fail? {
      return Rejected(status.error, r.pos);
    }
    h := Accepted(length, r.pos);
  }

  /** ReadPayload of the per-element form into `dest` (std::list, std::set,
      std::unordered_set): its status, the cursor and the destination's
      contents are those `LoopRead` describes. */
  method ReadLoop<T(!new,==)>(sc: SizeCodec, sk: Scalar<T>, dest: Container<T>, r: Reader, guard: Guard) returns (s: Status)
    requires sc.Valid() && sk.Valid() && r.Valid() && dest.Valid()
    modifies dest, r`pos
    ensures r.Valid() && dest.Valid()
    ensures var out := LoopRead(sc, sk, dest.policy, old(dest.items), r.data, old(r.pos), guard);
      s == out.status && r.pos == out.pos && dest.items == out.items
  {
    var h := ReadLength(sc, sk, r, guard);
    if h.Rejected? {
      return Fail(h.error);
    }
    dest.Clear();
    s := AddElements(AsCodec(sk), h.count, dest, r);
  }

  /** ReadPayload of the bulk form into a vector: resize to the element
      count, then read every image at once over the elements. */
  method ReadBulk<T(!new,==)>(sc: SizeCodec, sk: Scalar<T>, dest: Container<T>, r: Reader, guard: Guard) returns (s: Status)
    requires sc.Valid() && sk.Valid() && r.Valid() && dest.policy == Append
    modifies dest, r`pos
    ensures r.Valid() && dest.Valid()
    ensures var out := BulkRead(sc, sk, old(dest.items), r.data, old(r.pos), guard);
      s == out.status && r.pos == out.pos && dest.items == out.items
  {
    var h := ReadLength(sc, sk, r, guard);
    if h.Rejected? {
      return Fail(h.error);
    }
    s := ReadImages(sk, h.count, dest, r);
  }

  /** The bulk read after the checks: resize the vector to `count`, then
      read every image at once over its elements. */
  method ReadImages<T(!new,==)>(sk: Scalar<T>, count: nat, dest: Container<T>, r: Reader) returns (s: Status)
    requires sk.Valid() && r.Valid() && dest.policy == Append
    modifies dest, r`pos
    ensures r.Valid() && dest.Valid()
    ensures var out := BulkBody(sk, old(dest.items), r.data, old(r.pos), count);
      s == out.status && r.pos == out.pos && dest.items == out.items
  {
    dest.Resize(count, sk.Zero());
    var bytes := r.Read(count * sk.width);
    if bytes.Failure? {
      return Fail(bytes.error);
    }
    ValuesLength(sk, bytes.value, count);
    dest.Overwrite(Values(sk, bytes.value));
    s := Ok;
  }
}
