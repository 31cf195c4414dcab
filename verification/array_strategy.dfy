/** The Array strategy, shared by every container of a non-integral element
    type:

      +-----+---------+-----//-----+
      | ARY | INT64:N | N ELEMENTS |
      +-----+---------+-----//-----+

    The count goes through the size sub-codec and each element through its
    own codec. Only the payload (what follows the tag) is written and read
    here; the tag itself belongs to the caller. */
module ArrayStrategy {
  import opened Wire
  import opened Streams
  import opened Codecs
  import opened Containers
  import opened Elements

  /** The writes WritePayload performs, in order: the count, then each
      element in iteration order. */
  function Pieces<T(!new)>(sc: SizeCodec, ec: Codec<T>, xs: seq<T>): seq<seq<byte>>
  {
    [sc.encode(|xs|)] + Encoded(ec.encode, xs)
  }

  /** The payload a successful write emits: the count field followed by
      the elements' encodings back to back. */
  function Payload<T(!new)>(sc: SizeCodec, ec: Codec<T>, xs: seq<T>): (bytes: seq<byte>)
    ensures bytes == sc.encode(|xs|) + Flatten(Encoded(ec.encode, xs))
  {
    assert Pieces(sc, ec, xs)[1..] == Encoded(ec.encode, xs);
    Flatten(Pieces(sc, ec, xs))
  }

  /** std::accumulate over the element sizes: a left fold from `acc`, which
      only ever adds to its start and returns it for no elements. */
  function SumSizes<T(!new)>(ec: Codec<T>, xs: seq<T>, acc: nat): (total: nat)
    ensures total >= acc
    ensures xs == [] ==> total == acc
  {
    if xs == [] then acc else SumSizes(ec, xs[1..], acc + ec.size(xs[0]))
  }

  /** The size pre-pass: tag, count field, and every element's own size. */
  function Size<T(!new)>(sc: SizeCodec, ec: Codec<T>, xs: seq<T>): (n: nat)
    ensures n >= BaseEncodingSize(Array) + sc.size(|xs|)
  {
    BaseEncodingSize(Array) + sc.size(|xs|) + SumSizes(ec, xs, 0)
  }

  /** The fold of element sizes adds up to the bytes the elements encode to. */
  lemma {:induction false} SumSizesIsEncodedLength<T(!new)>(ec: Codec<T>, xs: seq<T>, acc: nat)
    requires ec.Valid()
    ensures SumSizes(ec, xs, acc) == acc + |Flatten(Encoded(ec.encode, xs))|
  {
    if xs != [] {
      EncodedCons(ec.encode, xs);
      SumSizesIsEncodedLength(ec, xs[1..], acc + ec.size(xs[0]));
    }
  }

  /** Size agreement: the pre-pass counts exactly the tag plus the bytes the
      payload write emits. */
  lemma SizeAgreement<T(!new)>(sc: SizeCodec, ec: Codec<T>, xs: seq<T>)
    requires sc.Valid() && ec.Valid()
    ensures Size(sc, ec, xs) == BaseEncodingSize(Array) + |Payload(sc, ec, xs)|
  {
    SumSizesIsEncodedLength(ec, xs, 0);
    assert Pieces(sc, ec, xs)[1..] == Encoded(ec.encode, xs);
  }

  /** ReadPayload: read the count (on failure, return before touching the
      destination), clear the destination, then add each decoded element.
      Nothing is reserved ahead: every element uses up at least one byte,
      so the bytes left after the count field bound how many elements the
      destination can receive, whatever count the field claims. */
  function Read<T(!new,==)>(sc: SizeCodec, ec: Codec<T>, p: Policy, before: seq<T>, data: seq<byte>, pos: nat): (r: ReadResult<T>)
    requires sc.Valid() && ec.Valid() && pos <= |data|
    ensures pos <= r.pos <= |data|
    ensures sc.decode(data[pos..]).Failure? ==> r.items == before
    ensures sc.decode(data[pos..]).Success? ==>
      var start := pos + sc.decode(data[pos..]).value.1;
      start <= r.pos && |r.items| <= r.pos - start && |r.items| <= |data| - start
  {
    match sc.decode(data[pos..])
    case Failure(e) => ReadResult(Fail(e), pos, before)
    case Success((count, used)) =>
      var d := DecodeElements(ec, data, pos + used, count, []);
      DecodeElementsBounded(ec, data, pos + used, count, []);
      FilledLength(p, d.elems);
      ReadResult(d.status, d.pos, Filled(p, d.elems))
  }

  /** Round trip: reading back what a write emitted, wherever in the source
      it starts and whatever follows it, succeeds, consumes exactly the
      payload and leaves the destination holding the written elements added
      in order. */
  lemma RoundTrip<T(!new)>(sc: SizeCodec, ec: Codec<T>, p: Policy, xs: seq<T>, before: seq<T>, data: seq<byte>, pos: nat, rest: seq<byte>)
    requires sc.Valid() && ec.Valid() && pos <= |data| && data[pos..] == Payload(sc, ec, xs) + rest
    ensures Read(sc, ec, p, before, data, pos) == ReadResult(Ok, pos + |Payload(sc, ec, xs)|, Filled(p, xs))
  {
    CountFieldAt(sc, ec, xs, data, pos, rest);
    ReadOfEncoded(sc, ec, p, before, data, pos, xs, |sc.encode(|xs|)|, rest);
  }

  /** Once the count field at `pos` decodes to |xs| and the encodings of xs
      follow it, the read succeeds with xs placed under the policy and ends
      just past them. */
  lemma ReadOfEncoded<T(!new)>(sc: SizeCodec, ec: Codec<T>, p: Policy, before: seq<T>, data: seq<byte>, pos: nat, xs: seq<T>, used: nat, rest: seq<byte>)
    requires sc.Valid() && ec.Valid() && pos + used <= |data|
    requires sc.decode(data[pos..]) == Success((|xs|, used))
    requires data[pos + used..] == Flatten(Encoded(ec.encode, xs)) + rest
    ensures Read(sc, ec, p, before, data, pos)
      == ReadResult(Ok, pos + used + |Flatten(Encoded(ec.encode, xs))|, Filled(p, xs))
  {
    DecodeEncoded(ec, xs, data, pos + used, [], rest);
    assert [] + xs == xs;
    ReadOfWholeRun(sc, ec, p, before, data, pos, used, xs, pos + used + |Flatten(Encoded(ec.encode, xs))|);
  }

  /** Once the count field at `pos` decodes to |xs| and the element loop
      after it reads xs back, the read succeeds with xs placed under the
      policy. */
  lemma ReadOfWholeRun<T(!new)>(sc: SizeCodec, ec: Codec<T>, p: Policy, before: seq<T>, data: seq<byte>, pos: nat, used: nat, xs: seq<T>, end: nat)
    requires sc.Valid() && ec.Valid() && pos <= |data| && sc.decode(data[pos..]) == Success((|xs|, used))
    requires pos + used <= |data| && DecodeElements(ec, data, pos + used, |xs|, []) == Decoded(Ok, end, xs)
    ensures Read(sc, ec, p, before, data, pos) == ReadResult(Ok, end, Filled(p, xs))
  {
  }

  /** In a written payload that starts at `pos`, the count field decodes
      to the element count and the elements' encodings follow it. */
  lemma CountFieldAt<T(!new)>(sc: SizeCodec, ec: Codec<T>, xs: seq<T>, data: seq<byte>, pos: nat, rest: seq<byte>)
    requires sc.Valid() && pos <= |data| && data[pos..] == Payload(sc, ec, xs) + rest
    ensures var head := sc.encode(|xs|);
      pos + |head| <= |data| &&
      sc.decode(data[pos..]) == Success((|xs|, |head|)) &&
      data[pos + |head|..] == Flatten(Encoded(ec.encode, xs)) + rest &&
      |Payload(sc, ec, xs)| == |head| + |Flatten(Encoded(ec.encode, xs))|
  {
    var head := sc.encode(|xs|);
    var body := Flatten(Encoded(ec.encode, xs));
    assert data[pos..] == head + (body + rest);
    assert Reads<nat>(sc.decode, head + (body + rest), |xs|, |head|);
    assert data[pos + |head|..] == data[pos..][|head|..];
  }


  /** WritePayload: the count, then each element; the first failing write
      ends it and nothing later is written. */
  method Write<T(!new)>(sc: SizeCodec, ec: Codec<T>, xs: seq<T>, w: Writer) returns (s: Status)
    requires w.Valid()
    modifies w
    ensures w.Valid()
    ensures var e := Emit(Pieces(sc, ec, xs), old(w.Room()));
      w.data == old(w.data) + e.bytes && s == e.status
  {
    assert Pieces(sc, ec, xs)[1..] == Encoded(ec.encode, xs);
    s := w.Write(sc.encode(|xs|));
    if s.Fail? {
      return;
    }
    s := WriteEach(ec.encode, xs, w);
  }

  /** ReadPayload into `dest`: its status, the cursor and the destination's
      contents are those `Read` describes. */
  method ReadInto<T(!new,==)>(sc: SizeCodec, ec: Codec<T>, dest: Container<T>, r: Reader) returns (s: Status)
    requires sc.Valid() && ec.Valid() && r.Valid() && dest.Valid()
    modifies dest, r`pos
    ensures r.Valid() && dest.Valid()
    ensures var out := Read(sc, ec, dest.policy, old(dest.items), r.data, old(r.pos));
      s == out.status && r.pos == out.pos && dest.items == out.items
  {
    ghost var pos := r.pos;
    var size := ReadWith(sc, r);
    if size.Failure? {
      return Fail(size.error);
    }
    assert sc.decode(r.data[pos..]) == Success((size.value, r.pos - pos));
    dest.Clear();
    s := AddElements(ec, size.value, dest, r);
  }
}
