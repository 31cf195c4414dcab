/** The four container shapes and the choice of strategy. Each shape is the
    same generic codec, instantiated with its insertion policy; the element
    class decides the strategy: Binary for an integral element, Array for
    any other. std::vector alone takes the bulk form of the Binary
    strategy. */
module Encoding {
  import opened Wire
  import opened Streams
  import opened Codecs
  import opened Containers
  import opened Elements
  import ArrayStrategy
  import BinaryStrategy

  datatype Shape = Vector | List | Set | UnorderedSet

  /** The static class of the element type, with the collaborator that
      class calls for: the raw image of an integral type, or the element
      codec of any other type. */
  datatype ElementClass<!T(!new)> = Integral(scalar: Scalar<T>) | General(codec: Codec<T>)
  {
    ghost predicate Valid()
    {
      match this
      case Integral(sk) => sk.Valid()
      case General(ec) => ec.Valid()
    }
  }

  /** push_back for the sequences, insert for the sets. */
  function PolicyOf(shape: Shape): Policy
  {
    match shape
    case Vector => Append
    case List => Append
    case Set => Insert
    case UnorderedSet => Insert
  }

  /** The tag a container record starts with. The value is not consulted. */
  function Prefix<T(!new)>(cls: ElementClass<T>, xs: seq<T>): (tag: EncodingByte)
    ensures tag == Array || tag == Binary
    ensures tag == Binary <==> cls.Integral?
  {
    if cls.Integral? then Binary else Array
  }

  /** Whether a record with tag `tag` is one this codec decodes: exactly
      the tag its own writes start with. */
  function Match<T(!new)>(cls: ElementClass<T>, tag: EncodingByte): (ok: bool)
    ensures ok <==> tag == Prefix(cls, [])
  {
    match cls
    case Integral(_) => tag == Binary
    case General(_) => tag == Array
  }

  /** The tag depends on the element class only, never on the contents
      (the empty container included), and Match accepts exactly that tag. */
  lemma TagSelection<T(!new)>(cls: ElementClass<T>, xs: seq<T>, ys: seq<T>, tag: EncodingByte)
    ensures Prefix(cls, xs) == Prefix(cls, ys) == Prefix(cls, [])
    ensures Match(cls, tag) <==> tag == Prefix(cls, xs)
  {
  }

  /** The size pre-pass; it always counts the tag. */
  function Size<T(!new)>(sc: SizeCodec, cls: ElementClass<T>, xs: seq<T>): (n: nat)
    ensures n >= BaseEncodingSize(Prefix(cls, xs))
  {
    match cls
    case Integral(sk) => BinaryStrategy.Size(sc, sk, xs)
    case General(ec) => ArrayStrategy.Size(sc, ec, xs)
  }

  /** The payload (what follows the tag) a successful write emits. */
  function Payload<T(!new)>(sc: SizeCodec, cls: ElementClass<T>, xs: seq<T>): seq<byte>
  {
    match cls
    case Integral(sk) => BinaryStrategy.Payload(sc, sk, xs)
    case General(ec) => ArrayStrategy.Payload(sc, ec, xs)
  }

  /** The writes WritePayload performs, in order. */
  function Pieces<T(!new)>(shape: Shape, sc: SizeCodec, cls: ElementClass<T>, xs: seq<T>): seq<seq<byte>>
  {
    match cls
    case Integral(sk) =>
      if shape == Vector then BinaryStrategy.BulkPieces(sc, sk, xs) else BinaryStrategy.LoopPieces(sc, sk, xs)
    case General(ec) => ArrayStrategy.Pieces(sc, ec, xs)
  }

  /** Size agreement for every shape: a write that succeeds emits exactly
      the payload, and the pre-pass counts the tag plus that payload. */
  lemma SizeAgreement<T(!new)>(shape: Shape, sc: SizeCodec, cls: ElementClass<T>, xs: seq<T>, room: nat)
    requires sc.Valid() && cls.Valid()
    ensures Size(sc, cls, xs) == BaseEncodingSize(Prefix(cls, xs)) + |Payload(sc, cls, xs)|
    ensures Emit(Pieces(shape, sc, cls, xs), room).status.Ok? <==> |Payload(sc, cls, xs)| <= room
    ensures Emit(Pieces(shape, sc, cls, xs), room).status.Ok? ==>
      Emit(Pieces(shape, sc, cls, xs), room).bytes == Payload(sc, cls, xs)
  {
    EmitSucceedsIffFits(Pieces(shape, sc, cls, xs), room);
    match cls
    case Integral(sk) =>
      BinaryStrategy.SizeAgreement(sc, sk, xs);
      BinaryStrategy.SameBytes(sc, sk, xs);
    case General(ec) =>
      ArrayStrategy.SizeAgreement(sc, ec, xs);
  }

  /** ReadPayload. For an integral element, `guard` says what the
      availability check is given: the library gives it the element count
      (BinaryStrategy.ElementCount). */
  function Read<T(!new,==)>(shape: Shape, sc: SizeCodec, cls: ElementClass<T>, guard: BinaryStrategy.Guard, before: seq<T>, data: seq<byte>, pos: nat): (r: ReadResult<T>)
    requires sc.Valid() && cls.Valid() && pos <= |data|
    ensures pos <= r.pos <= |data|
  {
    match cls
    case Integral(sk) =>
      if shape == Vector then BinaryStrategy.BulkRead(sc, sk, before, data, pos, guard)
      else BinaryStrategy.LoopRead(sc, sk, PolicyOf(shape), before, data, pos, guard)
    case General(ec) => ArrayStrategy.Read(sc, ec, PolicyOf(shape), before, data, pos)
  }

  /** Round trip of the sequences: reading back what was written, wherever
      in the source it starts (past the tag and any earlier fields) and
      whatever follows it, reproduces the vector or list element for
      element, in order, and consumes exactly the payload. */
  lemma SequenceRoundTrip<T(!new)>(shape: Shape, sc: SizeCodec, cls: ElementClass<T>, guard: BinaryStrategy.Guard, xs: seq<T>, before: seq<T>, data: seq<byte>, pos: nat, rest: seq<byte>)
    requires sc.Valid() && cls.Valid() && PolicyOf(shape) == Append
    requires pos <= |data| && data[pos..] == Payload(sc, cls, xs) + rest
    ensures Read(shape, sc, cls, guard, before, data, pos) == ReadResult(Ok, pos + |Payload(sc, cls, xs)|, xs)
  {
    FilledAppend(xs);
    match cls
    case Integral(sk) =>
      if shape == Vector {
        BinaryStrategy.BulkRoundTrip(sc, sk, xs, before, data, pos, rest, guard);
      } else {
        BinaryStrategy.LoopRoundTrip(sc, sk, Append, xs, before, data, pos, rest, guard);
      }
    case General(ec) =>
      ArrayStrategy.RoundTrip(sc, ec, Append, xs, before, data, pos, rest);
  }

  /** Round trip of the sets: reading back what was written gives a set
      with the same members as the one written, without duplicates, and
      never more elements than were written: exactly as many when the
      written elements were distinct. */
  lemma SetRoundTrip<T(!new)>(shape: Shape, sc: SizeCodec, cls: ElementClass<T>, guard: BinaryStrategy.Guard, xs: seq<T>, before: seq<T>, data: seq<byte>, pos: nat, rest: seq<byte>)
    requires sc.Valid() && cls.Valid() && PolicyOf(shape) == Insert
    requires pos <= |data| && data[pos..] == Payload(sc, cls, xs) + rest
    ensures var r := Read(shape, sc, cls, guard, before, data, pos);
      r.status == Ok && r.pos == pos + |Payload(sc, cls, xs)| &&
      Members(r.items) == Members(xs) && Distinct(r.items) && |r.items| <= |xs| &&
      (Distinct(xs) ==> |r.items| == |xs|)
  {
    FilledInsert(xs);
    if Distinct(xs) {
      FilledInsertDistinct(xs);
    }
    match cls
    case Integral(sk) =>
      BinaryStrategy.LoopRoundTrip(sc, sk, Insert, xs, before, data, pos, rest, guard);
    case General(ec) =>
      ArrayStrategy.RoundTrip(sc, ec, Insert, xs, before, data, pos, rest);
  }

  /** A length field that does not decode ends every read with its error
      before anything else happens: the cursor has not moved and the
      destination is as it was. */
  lemma LengthFailureKeepsDestination<T(!new)>(shape: Shape, sc: SizeCodec, cls: ElementClass<T>, guard: BinaryStrategy.Guard, before: seq<T>, data: seq<byte>, pos: nat)
    requires sc.Valid() && cls.Valid() && pos <= |data|
    requires sc.decode(data[pos..]).Failure?
    ensures Read(shape, sc, cls, guard, before, data, pos) == ReadResult(Fail(sc.decode(data[pos..]).error), pos, before)
  {
  }

  /** Destination reset: a read that succeeds leaves the same contents
      whatever the destination held before, so no stale element survives. */
  lemma DestinationReset<T(!new)>(shape: Shape, sc: SizeCodec, cls: ElementClass<T>, guard: BinaryStrategy.Guard, before: seq<T>, other: seq<T>, data: seq<byte>, pos: nat)
    requires sc.Valid() && cls.Valid() && pos <= |data|
    requires Read(shape, sc, cls, guard, before, data, pos).status.Ok?
    ensures Read(shape, sc, cls, guard, other, data, pos) == Read(shape, sc, cls, guard, before, data, pos)
  {
  }

  /** WritePayload: the writes `Pieces` lists, in order, until the first
      that fails. */
  method WritePayload<T(!new)>(shape: Shape, sc: SizeCodec, cls: ElementClass<T>, xs: seq<T>, w: Writer) returns (s: Status)
    requires w.Valid()
    modifies w
    ensures w.Valid()
    ensures var e := Emit(Pieces(shape, sc, cls, xs), old(w.Room()));
      w.data == old(w.data) + e.bytes && s == e.status
  {
    match cls
    case Integral(sk) =>
      if shape == Vector {
        s := BinaryStrategy.WriteBulk(sc, sk, xs, w);
      } else {
        s := BinaryStrategy.WriteLoop(sc, sk, xs, w);
      }
    case General(ec) =>
      s := ArrayStrategy.Write(sc, ec, xs, w);
  }

  /** ReadPayload into `dest`, a container of the shape's kind: the status,
      the cursor and the destination's contents are those `Read` gives. */
  method ReadPayload<T(!new,==)>(shape: Shape, sc: SizeCodec, cls: ElementClass<T>, guard: BinaryStrategy.Guard, dest: Container<T>, r: Reader) returns (s: Status)
    requires sc.Valid() && cls.Valid() && r.Valid() && dest.Valid() && dest.policy == PolicyOf(shape)
    modifies dest, r`pos
    ensures r.Valid() && dest.Valid()
    ensures var out := Read(shape, sc, cls, guard, old(dest.items), r.data, old(r.pos));
      s == out.status && r.pos == out.pos && dest.items == out.items
  {
    match cls
    case Integral(sk) =>
      if shape == Vector {
        s := BinaryStrategy.ReadBulk(sc, sk, dest, r, guard);
      } else {
        s := BinaryStrategy.ReadLoop(sc, sk, dest, r, guard);
      }
    case General(ec) =>
      s := ArrayStrategy.ReadInto(sc, ec, dest, r);
  }
}
